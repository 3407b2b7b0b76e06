/** The combinatorics behind the Mojette decoder: which sets of pixels can be
    peeled one at a time, for a given list of projection directions. */
module MojetteGeometry {
  import opened Common

  /** A projection direction: pixel (row, col) contributes to line col*q + row*p. */
  datatype Direction = Direction(p: int, q: int)

  datatype Pixel = Pixel(row: int, col: int)

  function Line(d: Direction, x: Pixel): int {
    x.col * d.q + x.row * d.p
  }

  function Abs(x: int): nat {
    if x < 0 then -x else x
  }

  ghost function AllPixels(l: nat, k: nat): set<Pixel> {
    set r, c | 0 <= r < l && 0 <= c < k :: Pixel(r, c)
  }

  /** The pixels of t on line v of direction d. */
  ghost function LineSet(t: set<Pixel>, d: Direction, v: int): set<Pixel> {
    set x | x in t && Line(d, x) == v
  }

  /** Another pixel of t lies on the line of x. */
  ghost predicate HasMate(t: set<Pixel>, d: Direction, x: Pixel) {
    exists y :: y in t && y != x && Line(d, y) == Line(d, x)
  }

  /** No line of any direction meets t in exactly one pixel: peeling cannot enter t. */
  ghost predicate Stopping(t: set<Pixel>, dirs: seq<Direction>) {
    forall d, x :: d in dirs && x in t ==> HasMate(t, d, x)
  }

  /** Peeling s never gets stuck, in whatever order it is done. */
  ghost predicate Peelable(s: set<Pixel>, dirs: seq<Direction>) {
    forall t :: t <= s && Stopping(t, dirs) ==> t == {}
  }

  /** What peeling leaves of s, in whatever order it is done: the largest stopping set inside s. */
  ghost function Core(s: set<Pixel>, dirs: seq<Direction>): set<Pixel> {
    set x | x in s && exists t :: t <= s && Stopping(t, dirs) && x in t
  }

  lemma CoreStops(s: set<Pixel>, dirs: seq<Direction>)
    ensures Stopping(Core(s, dirs), dirs)
    ensures Core(s, dirs) == {} <==> Peelable(s, dirs)
  {
    forall d, x | d in dirs && x in Core(s, dirs)
      ensures HasMate(Core(s, dirs), d, x)
    {
      var t :| t <= s && Stopping(t, dirs) && x in t;
      assert HasMate(t, d, x);
      assert t <= Core(s, dirs);
    }
    forall t | t <= s && Stopping(t, dirs)
      ensures t <= Core(s, dirs)
    {
    }
  }

  /** A pixel that is alone on some line is not in the core. */
  lemma CorePeel(s: set<Pixel>, dirs: seq<Direction>, d: Direction, x: Pixel)
    requires d in dirs && x in s && !HasMate(s, d, x)
    ensures Core(s - {x}, dirs) == Core(s, dirs)
  {
    forall t | t <= s && Stopping(t, dirs)
      ensures t <= s - {x}
    {
      assert x in t ==> HasMate(t, d, x);
    }
  }

  lemma CoreOfStopping(s: set<Pixel>, dirs: seq<Direction>)
    requires Stopping(s, dirs)
    ensures Core(s, dirs) == s
  {
  }

  // ---------- Directions ----------

  function Gcd(a: nat, b: nat): nat
    decreases b
  {
    if b == 0 then a else Gcd(b, a % b)
  }

  predicate Coprime(d: Direction) {
    Gcd(Abs(d.p), Abs(d.q)) == 1
  }

  predicate Parallel(d: Direction, e: Direction) {
    d.p * e.q == e.p * d.q
  }

  ghost predicate Independent(dirs: seq<Direction>) {
    forall i, j :: 0 <= i < j < |dirs| ==> !Parallel(dirs[i], dirs[j])
  }

  function SumQ(dirs: seq<Direction>): nat {
    if dirs == [] then 0 else Abs(dirs[0].q) + SumQ(dirs[1..])
  }

  function SumP(dirs: seq<Direction>): nat {
    if dirs == [] then 0 else Abs(dirs[0].p) + SumP(dirs[1..])
  }

  /** The criterion of Katz for an l-by-k support. */
  predicate Katz(dirs: seq<Direction>, l: nat, k: nat) {
    SumQ(dirs) >= l || SumP(dirs) >= k
  }

  lemma {:induction false} Bezout(a: nat, b: nat) returns (x: int, y: int)
    ensures a * x + b * y == Gcd(a, b)
    decreases b
  {
    if b == 0 {
      x, y := 1, 0;
    } else {
      var x', y' := Bezout(b, a % b);
      x, y := y', x' - (a / b) * y';
      BezoutStep(a, b, a / b, a % b, x', y');
    }
  }

  lemma BezoutStep(a: int, b: int, c: int, r: int, x: int, y: int)
    requires a == b * c + r
    ensures a * y + b * (x - c * y) == b * x + r * y
  {
    assert (b * c + r) * y == b * c * y + r * y;
    assert b * (x - c * y) == b * x - b * (c * y);
    assert b * (c * y) == b * c * y;
  }

  lemma BezoutSigned(d: Direction) returns (x: int, y: int)
    requires Coprime(d)
    ensures d.p * x + d.q * y == 1
  {
    x, y := Bezout(Abs(d.p), Abs(d.q));
    if d.p < 0 {
      assert (-d.p) * x == d.p * (-x);
      x := -x;
    }
    if d.q < 0 {
      assert (-d.q) * y == d.q * (-y);
      y := -y;
    }
  }

  /** Two pixels on one line of a coprime direction are at least q rows apart. */
  lemma RowGap(d: Direction, x: Pixel, y: Pixel)
    requires d.q > 0 && x != y && Line(d, x) == Line(d, y)
    ensures x.row != y.row
    ensures Coprime(d) ==> Abs(x.row - y.row) >= d.q
  {
    var dr, dc := x.row - y.row, x.col - y.col;
    assert dc * d.q + dr * d.p == 0;
    NonZeroProduct(dc, d.q);
    if dr != 0 && Coprime(d) {
      var a, b := BezoutSigned(d);
      GapIsMultiple(d.p, d.q, a, b, dr, dc);
      MultipleAtLeast(dr * b - dc * a, d.q);
    }
  }

  lemma GapIsMultiple(p: int, q: int, a: int, b: int, dr: int, dc: int)
    requires p * a + q * b == 1 && dc * q + dr * p == 0
    ensures dr == (dr * b - dc * a) * q
  {
    calc {
      dr;
      dr * (p * a + q * b);
      (dr * p) * a + (dr * q) * b;
      { assert dr * p == -(dc * q); }
      (-(dc * q)) * a + (dr * q) * b;
      { assert (dc * q) * a == (dc * a) * q; assert (dr * q) * b == (dr * b) * q; }
      (dr * b) * q - (dc * a) * q;
    }
  }

  lemma NonZeroProduct(a: int, b: int)
    ensures a * b == 0 <==> a == 0 || b == 0
  {
  }

  lemma MultipleAtLeast(m: int, q: int)
    requires q > 0 && m * q != 0
    ensures Abs(m * q) >= q
  {
    if m > 0 {
      assert (m - 1) * q >= 0;
    } else {
      assert m < 0;
      assert (-m - 1) * q >= 0;
    }
  }

  // ---------- Katz implies peelable ----------

  /** d is no steeper than e. */
  predicate NoSteeper(d: Direction, e: Direction) {
    d.p * e.q <= e.p * d.q
  }

  lemma PositiveProduct(a: int, b: int)
    requires b > 0
    ensures a > 0 <==> a * b > 0
  {
  }

  lemma NoSteeperTransitive(a: Direction, b: Direction, c: Direction)
    requires a.q > 0 && b.q > 0 && c.q > 0
    requires NoSteeper(a, b) && NoSteeper(b, c)
    ensures NoSteeper(a, c)
  {
    assert (a.p * b.q) * c.q <= (b.p * a.q) * c.q;
    assert (b.p * c.q) * a.q <= (c.p * b.q) * a.q;
    assert (a.p * c.q) * b.q == (a.p * b.q) * c.q;
    assert (b.p * a.q) * c.q == (b.p * c.q) * a.q;
    assert (c.p * b.q) * a.q == (c.p * a.q) * b.q;
    assert (a.p * c.q - c.p * a.q) * b.q <= 0;
    PositiveProduct(a.p * c.q - c.p * a.q, b.q);
  }

  lemma {:induction false} Steepest(dirs: seq<Direction>) returns (i: nat)
    requires |dirs| > 0 && forall d :: d in dirs ==> d.q > 0
    ensures i < |dirs| && forall d :: d in dirs ==> NoSteeper(d, dirs[i])
  {
    if |dirs| == 1 {
      i := 0;
    } else {
      var j := Steepest(dirs[1..]);
      var best := dirs[1..][j];
      i := if NoSteeper(dirs[0], best) then j + 1 else 0;
      forall d | d in dirs
        ensures NoSteeper(d, dirs[i])
      {
        if d != dirs[0] {
          assert d in dirs[1..];
          if i == 0 {
            NoSteeperTransitive(d, best, dirs[0]);
          }
        }
      }
    }
  }

  ghost predicate Lowest(t: set<Pixel>, d: Direction, x: Pixel) {
    x in t && forall y :: y in t ==> Line(d, x) <= Line(d, y)
  }

  lemma {:induction false} LowestExists(t: set<Pixel>, d: Direction) returns (x: Pixel)
    requires t != {}
    ensures Lowest(t, d, x)
    decreases |t|
  {
    var z :| z in t;
    var rest := t - {z};
    if rest == {} {
      x := z;
      assert t == {z};
    } else {
      var w := LowestExists(rest, d);
      x := if Line(d, w) < Line(d, z) then w else z;
      forall y | y in t
        ensures Line(d, x) <= Line(d, y)
      {
        if y != z {
          assert y in rest;
        }
      }
    }
  }

  /** As the direction gets steeper, the lowest pixels move to smaller rows. */
  lemma LowestMoveDown(t: set<Pixel>, d: Direction, x: Pixel, e: Direction, u: Pixel)
    requires d.q > 0 && e.q > 0
    requires NoSteeper(d, e) && !Parallel(d, e)
    requires Lowest(t, d, x) && Lowest(t, e, u)
    ensures u.row <= x.row
  {
    var dr, dc := u.row - x.row, u.col - x.col;
    assert dc * e.q + dr * e.p <= 0;
    assert dc * d.q + dr * d.p >= 0;
    assert (dc * e.q + dr * e.p) * d.q <= 0;
    assert (dc * d.q + dr * d.p) * e.q >= 0;
    assert (dc * e.q + dr * e.p) * d.q == dc * e.q * d.q + dr * (e.p * d.q);
    assert (dc * d.q + dr * d.p) * e.q == dc * e.q * d.q + dr * (d.p * e.q);
    assert dr * (e.p * d.q) <= dr * (d.p * e.q);
    var a := e.p * d.q - d.p * e.q;
    assert dr * a == dr * (e.p * d.q) - dr * (d.p * e.q);
    PositiveProduct(dr, a);
  }

  lemma {:induction false} SumAppend(a: seq<Direction>, b: seq<Direction>)
    ensures SumQ(a + b) == SumQ(a) + SumQ(b)
    ensures SumP(a + b) == SumP(a) + SumP(b)
  {
    if a == [] {
      assert a + b == b;
    } else {
      assert (a + b)[1..] == a[1..] + b;
      SumAppend(a[1..], b);
    }
  }

  function Without(dirs: seq<Direction>, i: nat): seq<Direction>
    requires i < |dirs|
  {
    dirs[..i] + dirs[i + 1..]
  }

  lemma SumWithout(dirs: seq<Direction>, i: nat)
    requires i < |dirs|
    ensures SumQ(dirs) == Abs(dirs[i].q) + SumQ(Without(dirs, i))
  {
    assert dirs == dirs[..i] + dirs[i..];
    SumAppend(dirs[..i], dirs[i..]);
    SumAppend(dirs[..i], dirs[i + 1..]);
    assert dirs[i..][1..] == dirs[i + 1..];
  }

  lemma WithoutKeeps(t: set<Pixel>, dirs: seq<Direction>, i: nat)
    requires i < |dirs| && Independent(dirs) && Stopping(t, dirs)
    ensures Independent(Without(dirs, i)) && Stopping(t, Without(dirs, i))
    ensures forall d :: d in Without(dirs, i) ==> d in dirs && !Parallel(d, dirs[i])
  {
    var rest := Without(dirs, i);
    forall a, b | 0 <= a < b < |rest|
      ensures !Parallel(rest[a], rest[b])
    {
      var a' := if a < i then a else a + 1;
      var b' := if b < i then b else b + 1;
      assert rest[a] == dirs[a'] && rest[b] == dirs[b'];
    }
    forall d | d in rest
      ensures d in dirs && !Parallel(d, dirs[i])
    {
      var a :| 0 <= a < |rest| && rest[a] == d;
      var a' := if a < i then a else a + 1;
      assert dirs[a'] == d;
      if a' < i {
        assert !Parallel(dirs[a'], dirs[i]);
      } else {
        assert !Parallel(dirs[i], dirs[a']);
      }
    }
  }

  ghost function Rows(t: set<Pixel>): set<int> {
    set x | x in t :: x.row
  }

  /** The exchange argument. In a stopping set the lowest lines of ever steeper
      directions occupy stacked row intervals, one of height q per direction. */
  lemma {:induction false} Staircase(t: set<Pixel>, dirs: seq<Direction>)
    returns (steep: Direction, low: Pixel, high: Pixel, rows: set<int>)
    requires t != {} && |dirs| > 0 && Stopping(t, dirs) && Independent(dirs)
    requires forall d :: d in dirs ==> d.q > 0
    ensures steep in dirs && forall d :: d in dirs ==> NoSteeper(d, steep)
    ensures Lowest(t, steep, low) && high in t
    ensures (forall d :: d in dirs ==> Coprime(d)) ==> high.row - low.row >= SumQ(dirs)
    ensures rows <= Rows(t) && |rows| >= |dirs| + 1
    ensures forall r :: r in rows ==> low.row <= r
    decreases |dirs|
  {
    hide Line, NoSteeper, Parallel, Coprime;
    var i := Steepest(dirs);
    steep := dirs[i];
    var rest := Without(dirs, i);
    SumWithout(dirs, i);
    WithoutKeeps(t, dirs, i);
    var u := LowestExists(t, steep);
    assert HasMate(t, steep, u);
    var v :| v in t && v != u && Line(steep, v) == Line(steep, u);
    RowGap(steep, u, v);
    var top := if u.row > v.row then u else v;
    low := if u.row > v.row then v else u;
    assert Lowest(t, steep, top) && Lowest(t, steep, low);
    if rest == [] {
      high := top;
      rows := {top.row, low.row};
    } else {
      var steep', low', high', rows' := Staircase(t, rest);
      LowestMoveDown(t, steep', low', steep, top);
      high := high';
      rows := rows' + {low.row};
      assert low.row !in rows';
    }
  }

  /** Positive-q directions only: the others put no constraint on rows. */
  function Climbing(dirs: seq<Direction>): seq<Direction> {
    if dirs == [] then []
    else if dirs[0].q > 0 then [dirs[0]] + Climbing(dirs[1..])
    else Climbing(dirs[1..])
  }

  lemma {:induction false} ClimbingKeeps(dirs: seq<Direction>)
    requires forall d :: d in dirs ==> d.q >= 0
    ensures SumQ(Climbing(dirs)) == SumQ(dirs)
    ensures forall d :: d in Climbing(dirs) ==> d in dirs && d.q > 0
    ensures Independent(dirs) ==> Independent(Climbing(dirs))
  {
    if dirs != [] {
      ClimbingKeeps(dirs[1..]);
      assert forall d :: d in dirs[1..] ==> d in dirs;
      if Independent(dirs) {
        assert Independent(dirs[1..]);
        forall d | d in dirs[1..]
          ensures !Parallel(dirs[0], d)
        {
          var a :| 0 <= a < |dirs[1..]| && dirs[1..][a] == d;
          assert dirs[a + 1] == d;
        }
      }
      if dirs[0].q > 0 {
        assert ([dirs[0]] + Climbing(dirs[1..]))[1..] == Climbing(dirs[1..]);
      }
    }
  }

  /** Directions with q >= 0, coprime, whose q add up to at least the number of rows. */
  lemma EnoughRowsPeelable(s: set<Pixel>, dirs: seq<Direction>, l: nat)
    requires forall d :: d in dirs ==> d.q >= 0 && Coprime(d)
    requires Independent(dirs) && SumQ(dirs) >= l
    requires forall x :: x in s ==> 0 <= x.row < l
    ensures Peelable(s, dirs)
  {
    forall t | t <= s && Stopping(t, dirs)
      ensures t == {}
    {
      if t != {} {
        ClimbingKeeps(dirs);
        var x :| x in t;
        assert Climbing(dirs) != [];
        var _, low, high, _ := Staircase(t, Climbing(dirs));
        assert false;
      }
    }
  }

  /** With q >= 1, as many directions as rows that s meets are enough, coprime or not. */
  lemma FewRowsPeelable(s: set<Pixel>, dirs: seq<Direction>, rows: set<int>)
    requires forall d :: d in dirs ==> d.q > 0
    requires Independent(dirs)
    requires Rows(s) <= rows && |rows| <= |dirs|
    ensures Peelable(s, dirs)
  {
    forall t | t <= s && Stopping(t, dirs)
      ensures t == {}
    {
      if t != {} {
        var x :| x in t;
        assert x.row in Rows(s);
        assert |rows| > 0;
        assert Rows(t) <= rows;
        var _, _, _, rs := Staircase(t, dirs);
        SubsetSizeAuto(rows);
        assert false;
      }
    }
  }

  lemma SubsetSizeAuto<T>(b: set<T>)
    ensures forall a :: a <= b ==> |a| <= |b|
  {
    forall a | a <= b
      ensures |a| <= |b|
    {
      SubsetSize(a, b);
    }
  }

  // Exchanging rows and columns. A direction and its opposite have the same lines.

  function Flip(x: Pixel): Pixel {
    Pixel(x.col, x.row)
  }

  ghost function FlipAll(t: set<Pixel>): set<Pixel> {
    set x | x in t :: Flip(x)
  }

  function FlipDirection(d: Direction): Direction {
    if d.p >= 0 then Direction(d.q, d.p) else Direction(-d.q, -d.p)
  }

  function FlipDirections(dirs: seq<Direction>): seq<Direction> {
    if dirs == [] then [] else [FlipDirection(dirs[0])] + FlipDirections(dirs[1..])
  }

  lemma {:induction false} FlipDirectionsAt(dirs: seq<Direction>)
    ensures |FlipDirections(dirs)| == |dirs|
    ensures forall i :: 0 <= i < |dirs| ==> FlipDirections(dirs)[i] == FlipDirection(dirs[i])
    ensures SumQ(FlipDirections(dirs)) == SumP(dirs)
  {
    if dirs != [] {
      FlipDirectionsAt(dirs[1..]);
      assert FlipDirections(dirs)[1..] == FlipDirections(dirs[1..]);
    }
  }

  lemma {:induction false} GcdSymmetric(a: nat, b: nat)
    ensures Gcd(a, b) == Gcd(b, a)
  {
    if a < b {
      GcdSwap(a, b);
    } else if b < a {
      GcdSwap(b, a);
    }
  }

  lemma {:induction false} GcdSwap(a: nat, b: nat)
    requires a < b
    ensures Gcd(a, b) == Gcd(b, a)
  {
    var m := a % b;
    assert m == a;
    calc {
      Gcd(a, b);
      Gcd(b, m);
      Gcd(b, a);
    }
  }

  lemma FlipParallel(d: Direction, e: Direction)
    ensures Parallel(FlipDirection(d), FlipDirection(e)) == Parallel(d, e)
  {
    assert (-d.q) * e.p == -(d.q * e.p) && (-d.q) * (-e.p) == d.q * e.p && d.q * (-e.p) == -(d.q * e.p);
    assert (-e.q) * d.p == -(e.q * d.p) && (-e.q) * (-d.p) == e.q * d.p && e.q * (-d.p) == -(e.q * d.p);
  }

  lemma FlipStopping(t: set<Pixel>, dirs: seq<Direction>)
    requires Stopping(t, dirs)
    ensures Stopping(FlipAll(t), FlipDirections(dirs))
  {
    FlipDirectionsAt(dirs);
    forall e, y | e in FlipDirections(dirs) && y in FlipAll(t)
      ensures HasMate(FlipAll(t), e, y)
    {
      var i :| 0 <= i < |dirs| && FlipDirection(dirs[i]) == e;
      var d := dirs[i];
      var x :| x in t && Flip(x) == y;
      assert HasMate(t, d, x);
      var z :| z in t && z != x && Line(d, z) == Line(d, x);
      assert Flip(z) in FlipAll(t);
      FlipLine(d, x);
      FlipLine(d, z);
    }
  }

  lemma FlipLine(d: Direction, x: Pixel)
    ensures Line(FlipDirection(d), Flip(x)) == (if d.p >= 0 then Line(d, x) else -Line(d, x))
  {
    assert x.row * (-d.p) == -(x.row * d.p) && x.col * (-d.q) == -(x.col * d.q);
  }

  lemma EnoughColumnsPeelable(s: set<Pixel>, dirs: seq<Direction>, k: nat)
    requires forall d :: d in dirs ==> Coprime(d)
    requires Independent(dirs) && SumP(dirs) >= k
    requires forall x :: x in s ==> 0 <= x.col < k
    ensures Peelable(s, dirs)
  {
    hide Parallel, Line, Gcd;
    var flipped := FlipDirections(dirs);
    FlipDirectionsAt(dirs);
    forall i, j | 0 <= i < j < |flipped|
      ensures !Parallel(flipped[i], flipped[j])
    {
      FlipParallel(dirs[i], dirs[j]);
    }
    forall d | d in dirs
      ensures Coprime(FlipDirection(d))
    {
      GcdSymmetric(Abs(d.p), Abs(d.q));
    }
    EnoughRowsPeelable(FlipAll(s), flipped, k);
    forall t | t <= s && Stopping(t, dirs)
      ensures t == {}
    {
      FlipStopping(t, dirs);
      assert FlipAll(t) <= FlipAll(s);
      assert FlipAll(t) == {};
      assert forall x :: x in t ==> Flip(x) in FlipAll(t);
    }
  }

  // ---------- Failure of Katz gives a ghost ----------

  ghost function Shift(t: set<Pixel>, v: Pixel): set<Pixel> {
    set x | x in t :: Pixel(x.row + v.row, x.col + v.col)
  }

  ghost function SymDiff<T>(a: set<T>, b: set<T>): set<T> {
    (a - b) + (b - a)
  }

  /** Two offsets that differ by a step along the lines of d. */
  function StepFrom(d: Direction): Pixel {
    if d.p >= 0 then Pixel(0, d.p) else Pixel(0, 0)
  }

  function StepTo(d: Direction): Pixel {
    if d.p >= 0 then Pixel(d.q, 0) else Pixel(d.q, -d.p)
  }

  /** A set that every line of every direction meets an even number of times. */
  ghost function Ghost(dirs: seq<Direction>): set<Pixel> {
    if dirs == [] then {Pixel(0, 0)}
    else
      var g := Ghost(dirs[1..]);
      SymDiff(Shift(g, StepFrom(dirs[0])), Shift(g, StepTo(dirs[0])))
  }

  lemma {:induction false} GhostBox(dirs: seq<Direction>)
    requires forall d :: d in dirs ==> d.q >= 0
    ensures forall x :: x in Ghost(dirs) ==> 0 <= x.row <= SumQ(dirs) && 0 <= x.col <= SumP(dirs)
  {
    if dirs != [] {
      assert dirs[0] in dirs;
      GhostBox(dirs[1..]);
    }
  }

  lemma ShiftNotInvariant(t: set<Pixel>, v: Pixel)
    requires t != {} && v != Pixel(0, 0)
    ensures Shift(t, v) != t
  {
    var d := Direction(-v.row, -v.col);
    var x := LowestExists(t, d);
    var y := Pixel(x.row + v.row, x.col + v.col);
    assert y in Shift(t, v);
    StepDown(x, v);
    assert y !in t;
  }

  lemma StepDown(x: Pixel, v: Pixel)
    requires v != Pixel(0, 0)
    ensures var d := Direction(-v.row, -v.col); Line(d, Pixel(x.row + v.row, x.col + v.col)) < Line(d, x)
  {
    SquaresPositive(v.row, v.col);
    assert (x.col + v.col) * (-v.col) == x.col * (-v.col) - v.col * v.col;
    assert (x.row + v.row) * (-v.row) == x.row * (-v.row) - v.row * v.row;
  }

  lemma SquaresPositive(a: int, b: int)
    requires a != 0 || b != 0
    ensures a * a + b * b > 0
  {
    assert a * a >= 0 && b * b >= 0;
    if a != 0 {
      assert a * a > 0;
    } else {
      assert b * b > 0;
    }
  }

  lemma {:induction false} GhostNonEmpty(dirs: seq<Direction>)
    requires forall d :: d in dirs ==> d.p != 0 || d.q != 0
    ensures Ghost(dirs) != {}
  {
    if dirs != [] {
      var d := dirs[0];
      assert d in dirs;
      var g := Ghost(dirs[1..]);
      GhostNonEmpty(dirs[1..]);
      var a, b := StepFrom(d), StepTo(d);
      var v := Pixel(b.row - a.row, b.col - a.col);
      var ga := Shift(g, a);
      ShiftShift(g, a, b);
      ShiftNonEmpty(g, a);
      ShiftNotInvariant(ga, v);
      SymDiffEmpty(ga, Shift(g, b));
    }
  }

  lemma SymDiffEmpty<T>(a: set<T>, b: set<T>)
    ensures SymDiff(a, b) == {} <==> a == b
  {
    if SymDiff(a, b) == {} {
      assert a - b == {} && b - a == {};
      assert forall x :: x in a ==> x in b || x in a - b;
      assert forall x :: x in b ==> x in a || x in b - a;
    }
  }

  lemma ShiftNonEmpty(t: set<Pixel>, v: Pixel)
    requires t != {}
    ensures Shift(t, v) != {}
  {
    var x :| x in t;
    assert Pixel(x.row + v.row, x.col + v.col) in Shift(t, v);
  }

  lemma ShiftShift(t: set<Pixel>, a: Pixel, b: Pixel)
    ensures Shift(Shift(t, a), Pixel(b.row - a.row, b.col - a.col)) == Shift(t, b)
  {
    var left := Shift(Shift(t, a), Pixel(b.row - a.row, b.col - a.col));
    forall y | y in Shift(t, b)
      ensures y in left
    {
      var x :| x in t && y == Pixel(x.row + b.row, x.col + b.col);
      assert Pixel(x.row + a.row, x.col + a.col) in Shift(t, a);
    }
  }

  ghost predicate EvenOn(t: set<Pixel>, d: Direction) {
    forall v :: |LineSet(t, d, v)| % 2 == 0
  }

  lemma {:induction false} ShiftSize(t: set<Pixel>, v: Pixel)
    ensures |Shift(t, v)| == |t|
    decreases |t|
  {
    if t == {} {
      assert Shift(t, v) == {};
    } else {
      var x :| x in t;
      var y := Pixel(x.row + v.row, x.col + v.col);
      ShiftSize(t - {x}, v);
      assert Shift(t, v) == Shift(t - {x}, v) + {y};
    }
  }

  lemma SymDiffParity<T>(a: set<T>, b: set<T>)
    ensures |SymDiff(a, b)| % 2 == (|a| + |b|) % 2
  {
    assert a == (a - b) + (a * b) && b == (b - a) + (a * b);
    assert |a| == |a - b| + |a * b| && |b| == |b - a| + |a * b|;
    assert |SymDiff(a, b)| == |a - b| + |b - a|;
  }

  lemma SameParity<T>(a: set<T>, b: set<T>)
    requires |a| % 2 == |b| % 2
    ensures |SymDiff(a, b)| % 2 == 0
  {
    SymDiffParity(a, b);
  }

  lemma ShiftLineSet(t: set<Pixel>, d: Direction, v: Pixel, line: int)
    ensures LineSet(Shift(t, v), d, line) == Shift(LineSet(t, d, line - Line(d, v)), v)
  {
    forall x | x in t
      ensures Line(d, Pixel(x.row + v.row, x.col + v.col)) == Line(d, x) + Line(d, v)
    {
      assert (x.col + v.col) * d.q == x.col * d.q + v.col * d.q;
      assert (x.row + v.row) * d.p == x.row * d.p + v.row * d.p;
    }
    var left, right := LineSet(Shift(t, v), d, line), Shift(LineSet(t, d, line - Line(d, v)), v);
    forall y | y in left
      ensures y in right
    {
      var x :| x in t && y == Pixel(x.row + v.row, x.col + v.col);
      assert x in LineSet(t, d, line - Line(d, v));
    }
  }

  lemma {:induction false} GhostEven(dirs: seq<Direction>, d: Direction)
    requires d in dirs
    ensures EvenOn(Ghost(dirs), d)
  {
    hide Line;
    var e := dirs[0];
    var g := Ghost(dirs[1..]);
    var a, b := StepFrom(e), StepTo(e);
    if d == e {
      StepOnLine(e);
    } else {
      assert d in dirs[1..];
      GhostEven(dirs[1..], d);
    }
    forall v
      ensures |LineSet(Ghost(dirs), d, v)| % 2 == 0
    {
      ShiftedCount(g, a, d, v);
      ShiftedCount(g, b, d, v);
      CombineEven(Shift(g, a), Shift(g, b), d, v);
    }
  }

  lemma ShiftedCount(g: set<Pixel>, a: Pixel, d: Direction, v: int)
    ensures |LineSet(Shift(g, a), d, v)| == |LineSet(g, d, v - Line(d, a))|
  {
    ShiftLineSet(g, d, a, v);
    ShiftSize(LineSet(g, d, v - Line(d, a)), a);
  }

  lemma SymDiffLineSet(s: set<Pixel>, t: set<Pixel>, d: Direction, v: int)
    ensures LineSet(SymDiff(s, t), d, v) == SymDiff(LineSet(s, d, v), LineSet(t, d, v))
  {
  }

  lemma CombineEven(s: set<Pixel>, t: set<Pixel>, d: Direction, v: int)
    requires |LineSet(s, d, v)| % 2 == |LineSet(t, d, v)| % 2
    ensures |LineSet(SymDiff(s, t), d, v)| % 2 == 0
  {
    SymDiffLineSet(s, t, d, v);
    SameParity(LineSet(s, d, v), LineSet(t, d, v));
  }

  lemma StepOnLine(d: Direction)
    ensures Line(d, StepFrom(d)) == Line(d, StepTo(d))
  {
    if d.p < 0 {
      assert (-d.p) * d.q + d.q * d.p == 0;
    }
  }

  lemma EvenStopping(t: set<Pixel>, dirs: seq<Direction>)
    requires forall d :: d in dirs ==> EvenOn(t, d)
    ensures Stopping(t, dirs)
  {
    forall d, x | d in dirs && x in t
      ensures HasMate(t, d, x)
    {
      var s := LineSet(t, d, Line(d, x));
      assert EvenOn(t, d);
      assert x in s;
      assert s == (s - {x}) + {x};
      assert |s| == |s - {x}| + 1;
      var y :| y in s - {x};
    }
  }

  /** The criterion of Katz is exactly what makes a rectangular support peelable. */
  lemma KatzExact(dirs: seq<Direction>, l: nat, k: nat)
    requires forall d :: d in dirs ==> d.q >= 0 && Coprime(d)
    requires Independent(dirs)
    ensures Peelable(AllPixels(l, k), dirs) <==> Katz(dirs, l, k)
  {
    var all := AllPixels(l, k);
    if SumQ(dirs) >= l {
      EnoughRowsPeelable(all, dirs, l);
    } else if SumP(dirs) >= k {
      EnoughColumnsPeelable(all, dirs, k);
    } else {
      var g := GhostFits(dirs, l, k);
      EvenStopping(g, dirs);
    }
  }

  lemma GhostFits(dirs: seq<Direction>, l: nat, k: nat) returns (g: set<Pixel>)
    requires forall d :: d in dirs ==> d.q >= 0 && Coprime(d)
    requires !Katz(dirs, l, k)
    ensures g != {} && g <= AllPixels(l, k)
    ensures forall d :: d in dirs ==> EvenOn(g, d)
  {
    g := Ghost(dirs);
    GhostBox(dirs);
    forall d | d in dirs
      ensures d.p != 0 || d.q != 0
    {
      assert Gcd(0, 0) == 0;
    }
    GhostNonEmpty(dirs);
    forall d | d in dirs
      ensures EvenOn(g, d)
    {
      GhostEven(dirs, d);
    }
  }
}
