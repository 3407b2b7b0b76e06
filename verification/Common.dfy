/** Definitions that several modules share. */
module Common {

  datatype Option<T> = None | Some(value: T)

  /** The cost of a broken link; no link costs more. */
  const LINK_COST_BROKEN: nat := 0x40_0000

  type LinkCost = c: nat | c <= LINK_COST_BROKEN

  ghost predicate Distinct<T>(list: seq<T>) {
    forall i, j :: 0 <= i < j < |list| ==> list[i] != list[j]
  }

  lemma {:induction false} SubsetSize<T>(a: set<T>, b: set<T>)
    requires a <= b
    ensures |a| <= |b|
    decreases |a|
  {
    if a != {} {
      var x :| x in a;
      SubsetSize(a - {x}, b - {x});
    }
  }

  lemma MulMonotone(a: nat, b: nat, d: nat)
    ensures a <= b ==> a * d <= b * d
    ensures a * d < b * d ==> a < b
  {
  }

  lemma DivMod(x: nat, d: nat)
    requires d > 0
    ensures (x / d) * d <= x < (x / d) * d + d
  {
    assert x == (x / d) * d + x % d;
  }

  lemma QuotientAtLeast(x: nat, d: nat, q: nat)
    requires d > 0
    ensures q <= x / d <==> q * d <= x
  {
    DivMod(x, d);
    if q <= x / d {
      MulMonotone(q, x / d, d);
    } else {
      MulMonotone(x / d + 1, q, d);
      assert (x / d + 1) * d == (x / d) * d + d;
    }
  }

  lemma QuotientMonotone(x: nat, y: nat, d: nat)
    requires d > 0 && x <= y
    ensures x / d <= y / d
  {
    QuotientAtLeast(x, d, x / d);
    QuotientAtLeast(y, d, x / d);
  }

  lemma QuotientAntitone(x: nat, a: nat, b: nat)
    requires 0 < a <= b
    ensures x / b <= x / a
  {
    var q := x / b;
    QuotientAtLeast(x, b, q);
    MulMonotone(a, b, q);
    assert q * a == a * q && q * b == b * q;
    QuotientAtLeast(x, a, q);
  }
}
