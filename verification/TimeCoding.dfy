/** Validity and HELLO times in one byte, a mantissa and an exponent (section 3.3.2 of RFC 3626). Times are in
    milliseconds. */
module TimeCoding {
  import opened Common

  const MAX_TIME: nat := 0xffff_ffff

  function Pow2(b: nat): (p: nat)
    ensures p > 0
  {
    if b == 0 then 1 else 2 * Pow2(b - 1)
  }

  lemma Powers()
    ensures Pow2(0) == 1 && Pow2(1) == 2 && Pow2(2) == 4 && Pow2(3) == 8 && Pow2(4) == 16 && Pow2(5) == 32
    ensures Pow2(6) == 64 && Pow2(7) == 128 && Pow2(8) == 256 && Pow2(9) == 512 && Pow2(10) == 1024
    ensures Pow2(11) == 2048 && Pow2(12) == 4096 && Pow2(13) == 8192 && Pow2(14) == 16384 && Pow2(15) == 32768
    ensures Pow2(16) == 65536 && Pow2(27) == 134217728
  {
    assert Pow2(4) == 16;
    assert Pow2(8) == 256;
    assert Pow2(12) == 4096;
    assert Pow2(16) == 65536;
    assert Pow2(20) == 1048576;
    assert Pow2(24) == 16777216;
  }

  /** What a mantissa and an exponent stand for. */
  function TimeOf(a: nat, b: nat): nat {
    if b >= 8 then (16 + a) * Pow2(b - 8) * 1000 else (16 + a) * 1000 / Pow2(8 - b)
  }

  /** me_to_reltime. */
  function MeToReltime(me: nat): nat
    requires me < 256
  {
    TimeOf(me / 16, me % 16)
  }

  /** The exponent for a time: the position of the highest bit of twice the number of 125 ms steps. */
  method FindExponent(unscaled: nat) returns (b: nat)
    requires unscaled <= MAX_TIME / 125 * 2
    ensures b <= 27 && unscaled < Pow2(b) && (b > 0 ==> Pow2(b - 1) <= unscaled)
  {
    b := 0;
    Powers();
    while unscaled >= Pow2(b)
      invariant b <= 27 && (b > 0 ==> Pow2(b - 1) <= unscaled)
      decreases 27 - b
    {
      PowMonotone(b + 1, 27);
      b := b + 1;
    }
  }

  lemma PowMonotone(a: nat, b: nat)
    ensures a <= b ==> Pow2(a) <= Pow2(b)
    decreases b
  {
    if a < b {
      PowMonotone(a, b - 1);
    }
  }

  /** The mantissa for a time and its exponent. */
  function Mantissa(t: nat, b: nat): nat
    requires 1 <= b && t >= 125 * Pow2(b - 1)
  {
    if b >= 5 then (t - 125 * Pow2(b - 1)) / (125 * Pow2(b - 5)) else (t - 125 * Pow2(b - 1)) * Pow2(5 - b) / 125
  }

  function BitLength(u: nat): nat {
    if u == 0 then 0 else 1 + BitLength(u / 2)
  }

  lemma {:induction false} BitLengthIs(u: nat, b: nat)
    requires u < Pow2(b) && (b > 0 ==> Pow2(b - 1) <= u)
    ensures BitLength(u) == b
    decreases b
  {
    if b > 0 {
      if b > 1 {
        assert Pow2(b - 1) == 2 * Pow2(b - 2);
      }
      BitLengthIs(u / 2, b - 1);
    }
  }

  lemma {:induction false} BitLengthBounds(u: nat)
    ensures u < Pow2(BitLength(u)) && (u > 0 ==> Pow2(BitLength(u) - 1) <= u)
    decreases u
  {
    if u > 0 {
      BitLengthBounds(u / 2);
      if u > 1 {
        assert Pow2(BitLength(u) - 1) == 2 * Pow2(BitLength(u) - 2);
      }
    }
  }

  /** The code of a time: exponent and mantissa where they fit, the ends of the scale otherwise. */
  function Encode(t: nat): (me: nat)
    requires t <= MAX_TIME
    ensures me < 256
  {
    var length := BitLength(t / 125 * 2);
    if length == 0 then 16
    else if length - 1 > 15 then 255
    else
      TimeInOctave(t);
      InOctaveMantissa(t, length - 1);
      16 * Mantissa(t, length - 1) + (length - 1)
  }

  /** b is the exponent of t. */
  predicate InOctave(t: nat, b: nat) {
    1 <= b <= 15 && 125 * Pow2(b - 1) <= t < 125 * Pow2(b)
  }

  lemma BitLengthOfTwice(n: nat)
    ensures n == 0 <==> BitLength(n * 2) == 0
    ensures n > 0 ==> BitLength(n * 2) >= 2 && Pow2(BitLength(n * 2) - 2) <= n < Pow2(BitLength(n * 2) - 1)
  {
    if n > 0 {
      BitLengthBounds(n);
      var length := BitLength(n);
      assert BitLength(n * 2) == 1 + length;
    }
  }

  lemma LongLength(n: nat)
    ensures BitLength(n * 2) > 16 <==> n >= 32768
  {
    hide Pow2, BitLength;
    BitLengthOfTwice(n);
    Powers();
    if n > 0 {
      var length := BitLength(n * 2);
      PowMonotone(15, length - 2);
      PowMonotone(length - 1, 15);
    }
  }

  lemma TimeInOctave(t: nat)
    requires t <= MAX_TIME
    ensures var length := BitLength(t / 125 * 2);
            && (length == 0 <==> t < 125) && (length > 16 <==> t >= 4096000)
            && (1 <= length <= 16 ==> InOctave(t, length - 1))
  {
    hide Pow2, BitLength;
    var steps := t / 125;
    BitLengthOfTwice(steps);
    LongLength(steps);
  }

  /** With a grid of width unit between 16 and 32 units, a time is cut down to the grid. */
  lemma OnGrid(t: nat, unit: nat)
    requires unit > 0 && 16 * unit <= t < 32 * unit
    ensures (t - 16 * unit) / unit <= 15
    ensures var dec := (16 + (t - 16 * unit) / unit) * unit; 16 * unit <= dec <= t < dec + unit
  {
    var x, a := t - 16 * unit, (t - 16 * unit) / unit;
    assert x == a * unit + x % unit;
    assert (16 + a) * unit == 16 * unit + a * unit;
    MulMonotone(a, 16, unit);
  }

  /** For exponents from 5 on the time of a code is a whole number of units. */
  lemma TimeOfUnits(a: nat, b: nat)
    requires 5 <= b
    ensures TimeOf(a, b) == (16 + a) * (125 * Pow2(b - 5)) && Pow2(b - 1) == 16 * Pow2(b - 5)
            && Pow2(b) == 32 * Pow2(b - 5)
  {
    Powers();
    assert Pow2(b) == 2 * Pow2(b - 1) && Pow2(b - 1) == 2 * Pow2(b - 2) && Pow2(b - 2) == 2 * Pow2(b - 3);
    assert Pow2(b - 3) == 2 * Pow2(b - 4) && Pow2(b - 4) == 2 * Pow2(b - 5);
    if b >= 8 {
      assert Pow2(b - 5) == 2 * Pow2(b - 6) && Pow2(b - 6) == 2 * Pow2(b - 7) && Pow2(b - 7) == 2 * Pow2(b - 8);
      var p := Pow2(b - 8);
      assert (16 + a) * p * 1000 == (16 + a) * (1000 * p);
    }
  }

  lemma SmallExponent(t: nat, b: nat)
    requires InOctave(t, b) && b < 5
    ensures var a := Mantissa(t, b);
            a <= 15 && 125 * Pow2(b - 1) <= TimeOf(a, b) <= t && 16 * (t - TimeOf(a, b)) < t + 16
  {
    Powers();
    if b == 1 {
    } else if b == 2 {
    } else if b == 3 {
    } else {
    }
  }

  /** The mantissa fits four bits. */
  lemma InOctaveMantissa(t: nat, b: nat)
    requires InOctave(t, b)
    ensures Mantissa(t, b) <= 15
  {
    OctaveTime(t, b);
  }

  /** Within one octave, decoding stays in the octave, never exceeds the time, and is short by less than a sixteenth and
      one millisecond. */
  lemma OctaveTime(t: nat, b: nat)
    requires InOctave(t, b)
    ensures var a := Mantissa(t, b);
            a <= 15 && 125 * Pow2(b - 1) <= TimeOf(a, b) <= t && 16 * (t - TimeOf(a, b)) < t + 16
  {
    if b < 5 {
      SmallExponent(t, b);
    } else {
      TimeOfUnits(Mantissa(t, b), b);
      OnGrid(t, 125 * Pow2(b - 5));
    }
  }

  /** The mantissa, in one byte. */
  method ComputeMantissa(interval: nat, b: nat) returns (a: nat)
    requires InOctave(interval, b)
    ensures a == Mantissa(interval, b) <= 15
  {
    InOctaveMantissa(interval, b);
    if b >= 5 {
      a := (interval - 125 * Pow2(b - 1)) / (125 * Pow2(b - 5)) % 256;
    } else {
      a := (interval - 125 * Pow2(b - 1)) * Pow2(5 - b) / 125 % 256;
    }
  }

  /** reltime_to_me: the loop over the exponent, then the mantissa in one byte. The carry into the exponent that the
      original provides for never happens. */
  method ReltimeToMe(interval: nat) returns (me: nat)
    requires interval <= MAX_TIME
    ensures me == Encode(interval)
  {
    hide Pow2, BitLength, InOctave, Mantissa;
    var unscaled := interval / 125 * 2;
    var b := FindExponent(unscaled);
    BitLengthIs(unscaled, b);
    var a: nat;
    if b == 0 {
      a := 1;
    } else {
      b := b - 1;
      if b > 15 {
        a, b := 15, 15;
      } else {
        TimeInOctave(interval);
        OctaveStart(interval, b);
        a := ComputeMantissa(interval, b);
        b := b + a / 16;
        a := a % 16;
      }
    }
    me := a * 16 + b % 16;
  }

  /** From 125 ms up to the end of the scale, decoding gives at most the time, and less than a sixteenth and one
      millisecond under it. */
  lemma RoundTrip(t: nat)
    requires 125 <= t < 4096000
    ensures MeToReltime(Encode(t)) <= t && 16 * (t - MeToReltime(Encode(t))) < t + 16
  {
    EncodeInOctave(t);
    OctaveTime(t, BitLength(t / 125 * 2) - 1);
  }

  lemma EncodeInOctave(t: nat)
    requires 125 <= t < 4096000
    ensures var b := BitLength(t / 125 * 2) - 1;
            b >= 0 && InOctave(t, b) && MeToReltime(Encode(t)) == TimeOf(Mantissa(t, b), b)
  {
    hide Mantissa, TimeOf, BitLength, Pow2, InOctave;
    TimeInOctave(t);
    var b := BitLength(t / 125 * 2) - 1;
    OctaveStart(t, b);
    InOctaveMantissa(t, b);
    Pack(Mantissa(t, b), b);
  }

  lemma OctaveStart(t: nat, b: nat)
    requires InOctave(t, b)
    ensures 1 <= b <= 15 && t >= 125 * Pow2(b - 1)
  {
  }

  lemma Pack(a: nat, b: nat)
    requires a <= 15 && b <= 15
    ensures (16 * a + b) / 16 == a && (16 * a + b) % 16 == b
  {
  }

  /** What a code stands for: a is in its upper four bits, b in the lower ones, and the time is (1 + a/16) * 2^b
      sixteenths of a second, cut down to whole milliseconds. */
  lemma TimeOfCode(a: nat, b: nat)
    requires a <= 15 && b <= 15
    ensures var t := MeToReltime(16 * a + b);
            256 * t <= (16 + a) * 1000 * Pow2(b) < 256 * (t + 1)
  {
    hide Pow2, TimeOf;
    Pack(a, b);
    if b >= 8 {
      LargeTime(a, b, Pow2(b));
    } else {
      SmallTime(a, b);
    }
  }

  lemma LargeTime(a: nat, b: nat, power: nat)
    requires b >= 8 && power == Pow2(b)
    ensures 256 * TimeOf(a, b) == (16 + a) * 1000 * power
  {
    PowAdd8(b - 8);
    hide Pow2;
    Reordered(16 + a, Pow2(b - 8), power);
  }

  lemma Reordered(c: nat, p: nat, power: nat)
    requires power == 256 * p
    ensures 256 * (c * p * 1000) == c * 1000 * power
  {
    assert c * (p * 256000) == c * p * 256000;
  }

  lemma PowAdd8(b: nat)
    ensures Pow2(b + 8) == 256 * Pow2(b)
  {
    assert Pow2(b + 8) == 2 * Pow2(b + 7) && Pow2(b + 7) == 2 * Pow2(b + 6) && Pow2(b + 6) == 2 * Pow2(b + 5);
    assert Pow2(b + 5) == 2 * Pow2(b + 4) && Pow2(b + 4) == 2 * Pow2(b + 3) && Pow2(b + 3) == 2 * Pow2(b + 2);
    assert Pow2(b + 2) == 2 * Pow2(b + 1);
  }

  lemma SmallTime(a: nat, b: nat)
    requires a <= 15 && b < 8
    ensures 256 * TimeOf(a, b) <= (16 + a) * 1000 * Pow2(b) < 256 * (TimeOf(a, b) + 1)
  {
    Powers();
    hide Pow2;
    if b == 0 {
    } else if b == 1 {
    } else if b == 2 {
    } else if b == 3 {
    } else if b == 4 {
    } else if b == 5 {
    } else if b == 6 {
    } else {
    }
  }

  /** Below and above the scale there is one code each. */
  lemma OutOfScale(t: nat)
    requires t <= MAX_TIME
    ensures t < 125 ==> Encode(t) == 16
    ensures t >= 4096000 ==> Encode(t) == 255
  {
    hide BitLength;
    TimeInOctave(t);
  }

  // ---------- Which codes come back ----------

  /** The codes whose time is a whole number of milliseconds, and the one for all times below the scale. */
  predicate Exact(me: nat) {
    if me % 16 == 0 then me == 16 else me % 16 >= 5 || me / 16 % Pow2(5 - me % 16) == 0
  }

  lemma OctaveUnique(t: nat, b: nat, c: nat)
    requires InOctave(t, b) && InOctave(t, c)
    ensures b == c
  {
    PowMonotone(b, c - 1);
    PowMonotone(c, b - 1);
  }

  lemma EncodeAt(t: nat, b: nat)
    requires InOctave(t, b)
    ensures 125 <= t < 4096000 && Mantissa(t, b) <= 15 && Encode(t) == 16 * Mantissa(t, b) + b
  {
    hide Mantissa, BitLength;
    Powers();
    PowMonotone(0, b - 1);
    PowMonotone(b, 15);
    assert Pow2(15) == 32768;
    TimeInOctave(t);
    OctaveUnique(t, b, BitLength(t / 125 * 2) - 1);
    InOctaveMantissa(t, b);
  }

  lemma WholeUnits(a: nat, unit: nat)
    requires a <= 15 && unit > 0
    ensures 16 * unit <= (16 + a) * unit < 32 * unit && ((16 + a) * unit - 16 * unit) / unit == a
  {
    assert (16 + a) * unit == 16 * unit + a * unit;
    MulMonotone(a, 15, unit);
    QuotientAtLeast(a * unit, unit, a);
    QuotientAtLeast(a * unit, unit, a + 1);
    assert (a + 1) * unit == a * unit + unit;
  }

  lemma LargeCode(a: nat, b: nat)
    requires a <= 15 && 5 <= b <= 15
    ensures InOctave(TimeOf(a, b), b) && Mantissa(TimeOf(a, b), b) == a
  {
    hide Pow2, TimeOf;
    TimeOfUnits(a, b);
    WholeUnits(a, 125 * Pow2(b - 5));
  }

  lemma SmallCode1(a: nat)
    requires a <= 15
    ensures var t := (16 + a) * 1000 / 128; 125 <= t < 250 && ((t - 125) * 16 / 125 == a <==> a % 16 == 0)
  {
  }

  lemma SmallCode2(a: nat)
    requires a <= 15
    ensures var t := (16 + a) * 1000 / 64; 250 <= t < 500 && ((t - 250) * 8 / 125 == a <==> a % 8 == 0)
  {
  }

  lemma SmallCode3(a: nat)
    requires a <= 15
    ensures var t := (16 + a) * 1000 / 32; 500 <= t < 1000 && ((t - 500) * 4 / 125 == a <==> a % 4 == 0)
  {
  }

  lemma SmallCode4(a: nat)
    requires a <= 15
    ensures var t := (16 + a) * 1000 / 16; 1000 <= t < 2000 && ((t - 1000) * 2 / 125 == a <==> a % 2 == 0)
  {
  }

  lemma SmallCode(a: nat, b: nat)
    requires a <= 15 && 1 <= b < 5
    ensures InOctave(TimeOf(a, b), b) && (Mantissa(TimeOf(a, b), b) == a <==> a % Pow2(5 - b) == 0)
  {
    Powers();
    hide Pow2;
    if b == 1 {
      SmallCode1(a);
    } else if b == 2 {
      SmallCode2(a);
    } else if b == 3 {
      SmallCode3(a);
    } else {
      SmallCode4(a);
    }
  }

  lemma ZeroExponent(a: nat)
    requires a <= 15
    ensures TimeOf(a, 0) < 125
  {
    Powers();
  }

  /** Encoding after decoding gives the code back exactly for the exact codes. */
  lemma CodeRoundTripIff(me: nat)
    requires me < 256
    ensures MeToReltime(me) <= MAX_TIME && (Encode(MeToReltime(me)) == me <==> Exact(me))
  {
    hide TimeOf, Mantissa, InOctave, Encode, Pow2;
    var a, b := me / 16, me % 16;
    assert me == 16 * a + b;
    var t := MeToReltime(me);
    if b == 0 {
      ZeroExponent(a);
      BelowScale(t);
    } else {
      if b < 5 {
        SmallCode(a, b);
      } else {
        LargeCode(a, b);
      }
      OctaveStart(t, b);
      EncodeAt(t, b);
    }
  }

  lemma BelowScale(t: nat)
    requires t < 125
    ensures Encode(t) == 16
  {
  }

  lemma {:induction false} SameOctave(t: nat, u: nat, b: nat)
    requires InOctave(t, b) && InOctave(u, b) && t <= u
    ensures TimeOf(Mantissa(t, b), b) <= TimeOf(Mantissa(u, b), b)
  {
    if b < 5 {
      Powers();
      var p := Pow2(5 - b);
      MulMonotone(t - 125 * Pow2(b - 1), u - 125 * Pow2(b - 1), p);
      assert Mantissa(t, b) <= Mantissa(u, b);
      QuotientMonotone((16 + Mantissa(t, b)) * 1000, (16 + Mantissa(u, b)) * 1000, Pow2(8 - b));
    } else {
      TimeOfUnits(Mantissa(t, b), b);
      TimeOfUnits(Mantissa(u, b), b);
      var unit := 125 * Pow2(b - 5);
      QuotientMonotone(t - 16 * unit, u - 16 * unit, unit);
      MulMonotone(16 + Mantissa(t, b), 16 + Mantissa(u, b), unit);
    }
  }

  /** Decoding after encoding never reverses the order of two times. */
  lemma Monotone(t: nat, u: nat)
    requires t <= u <= MAX_TIME
    ensures MeToReltime(Encode(t)) <= MeToReltime(Encode(u))
  {
    TimeInOctave(t);
    TimeInOctave(u);
    Ends();
    if 125 <= t {
      EncodeInOctaveIf(t);
      EncodeInOctaveIf(u);
      if u < 4096000 {
        MonotoneInScale(t, u);
      }
    } else if 125 <= u < 4096000 {
      AtLeastOctave(u);
    }
  }

  lemma Ends()
    ensures MeToReltime(16) == 66 && MeToReltime(255) == 3968000
  {
    Powers();
  }

  /** No code stands for more than the last one. */
  lemma EncodeInOctaveIf(t: nat)
    requires 125 <= t <= MAX_TIME
    ensures MeToReltime(Encode(t)) <= 3968000
  {
    Ends();
    TimeInOctave(t);
    if t < 4096000 {
      EncodeInOctave(t);
      var b := BitLength(t / 125 * 2) - 1;
      OctaveTime(t, b);
      TopOfScale(Mantissa(t, b), b);
    }
  }

  lemma TopOfScale(a: nat, b: nat)
    requires a <= 15 && b <= 15
    ensures TimeOf(a, b) <= 3968000
  {
    Powers();
    if b >= 8 {
      PowMonotone(b - 8, 7);
      MulMonotone(16 + a, 31, Pow2(b - 8));
      MulMonotone(Pow2(b - 8), 128, 31);
    } else {
      QuotientMonotone((16 + a) * 1000, 31000, Pow2(8 - b));
      assert 31000 / Pow2(8 - b) <= 31000;
    }
  }

  lemma AtLeastOctave(u: nat)
    requires 125 <= u < 4096000
    ensures MeToReltime(Encode(u)) >= 125
  {
    EncodeInOctave(u);
    var b := BitLength(u / 125 * 2) - 1;
    OctaveTime(u, b);
    PowMonotone(0, b - 1);
  }

  lemma MonotoneInScale(t: nat, u: nat)
    requires 125 <= t <= u < 4096000
    ensures MeToReltime(Encode(t)) <= MeToReltime(Encode(u))
  {
    hide Mantissa, TimeOf, BitLength, Encode, MeToReltime, Pow2;
    EncodeInOctave(t);
    EncodeInOctave(u);
    var b, c := BitLength(t / 125 * 2) - 1, BitLength(u / 125 * 2) - 1;
    if b == c {
      SameOctave(t, u, b);
    } else {
      OctaveTime(t, b);
      OctaveTime(u, c);
      PowMonotone(c, b - 1);
      PowMonotone(b, c - 1);
    }
  }
}
