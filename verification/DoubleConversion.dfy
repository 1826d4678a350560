/** lib/nanopb-0.3.9.3/examples/using_double_on_avr/double_conversion.c: float and double bit patterns. */
module DoubleConversion {
  import opened Powers

  // Conversion between the bit patterns of single and double precision numbers (IEEE 754-2008, section 3.4),
  // with rounding to nearest, ties away from zero (section 4.3.1). Bit patterns are natural numbers. Shifts
  // and masks are written as the divisions, remainders and sums they are on unsigned integers.

  const B23: nat := 0x80_0000
  const B24: nat := 0x100_0000
  const B28: nat := 0x1000_0000
  const B29: nat := 0x2000_0000
  const B52: nat := 0x10_0000_0000_0000

  /** x >> s */
  function ShiftRight(x: nat, s: nat): nat
    decreases s
  {
    if s == 0 then x else ShiftRight(x / 2, s - 1)
  }

  type Float = f: nat | f < B32
  type Double = d: nat | d < B64

  /** The magnitude bits of infinity. */
  const FLOAT_INFINITY: nat := 255 * B23
  const DOUBLE_INFINITY: nat := 2047 * B52

  // ----- What bit patterns mean -----

  /** Value of the magnitude bits of a float in units of the smallest float, 2^-149. The pattern of
      infinity counts as 2^128, the value its place in the order of patterns gives it. */
  function FloatMag(k: nat): nat {
    var e, m := k / B23, k % B23;
    if e == 0 then m else (B23 + m) * Pow2(e - 1)
  }

  /** Value of the magnitude bits of a double in units of the smallest double, 2^-1074. */
  function DoubleMag(k: nat): nat {
    var e, m := k / B52, k % B52;
    if e == 0 then m else (B52 + m) * Pow2(e - 1)
  }

  /** The unit of floats over the unit of doubles, 2^925. */
  function Scale(): (s: nat)
    ensures s >= 1
  {
    Pow2(925)
  }

  function Distance(a: int, b: int): nat { if a < b then b - a else a - b }

  /** r is the float magnitude nearest to the double magnitude d, the larger one if there are two. */
  ghost predicate NearestTiesAway(d: nat, r: nat) {
    && r <= FLOAT_INFINITY
    && forall g: nat :: g <= FLOAT_INFINITY && g != r ==>
        var here, there := Distance(DoubleMag(d), FloatMag(r) * Scale()), Distance(DoubleMag(d), FloatMag(g) * Scale());
        here < there || (here == there && g < r)
  }

  // ----- The conversions as functions -----

  /** x | sign << 31 */
  function WithSign(x: nat, sign: nat): nat { if sign == 1 && x < B31 then x + B31 else x }

  /** The magnitude a double with exponent field e and leading mantissa bits m rounds to. */
  function RoundMagnitude(e: nat, m: nat): nat {
    if e < 2047 && e > 1150 then FLOAT_INFINITY
    else if e < 873 then 0
    else
      var top := if e < 897 then ShiftRight(B24 + m, 897 - e) else m;
      var expo := if e == 2047 then 255 else if e < 897 then 0 else e - 896;
      var q := (top + 1) / 2;
      if q / B23 % 2 != 0 then (expo + 1) * B23 + q % B23 / 2 else expo * B23 + q
  }

  function DoubleToFloatBits(v: Double): (f: nat) {
    WithSign(RoundMagnitude(v / B52 % 2048, v / B28 % B24), v / B63)
  }

  /** How far the mantissa of a subnormal float must be shifted to reach its leading bit. */
  function NormalShift(m: nat): (n: nat)
    requires 0 < m < B24
    decreases B24 - m
  {
    if m >= B23 then 0 else 1 + NormalShift(2 * m)
  }

  /** That mantissa after the shift. */
  function Normal(m: nat): (n: nat)
    requires 0 < m < B24
    ensures B23 <= n < B24
    decreases B24 - m
  {
    if m >= B23 then m else Normal(2 * m)
  }

  /** The exponent field and the leading mantissa bits of the double, from those of the float. */
  function Widened(e: nat, m: nat): (int, nat)
    requires m < B23
  {
    var expo :=
      if e == 255 then 2047
      else if e > 0 then e + 896
      else if m == 0 then 0
      else 897 - NormalShift(m);
    (expo, if e == 0 && m != 0 then Normal(m) % B23 else m)
  }

  function FloatToDoubleBits(f: Float): int {
    var (expo, frac) := Widened(f / B23 % 256, f % B23);
    frac * B29 + expo * B52 + f / B31 * B63
  }

  // ----- The code -----

  lemma LeadingBit(mantissa: nat)
    requires mantissa < B24
    ensures mantissa / B23 % 2 == 0 <==> mantissa < B23
  {
  }

  /** The loop that normalises a subnormal mantissa. */
  method Normalise(m: nat) returns (mantissa: nat, exponent: int)
    requires 0 < m < B23
    ensures mantissa == Normal(m) && exponent == -126 - NormalShift(m)
  {
    exponent := -127;
    mantissa := m * 2;
    LeadingBit(mantissa);
    while mantissa / B23 % 2 == 0
      invariant 0 < mantissa < B24
      invariant mantissa / B23 % 2 == 0 <==> mantissa < B23
      invariant Normal(mantissa) == Normal(m)
      invariant exponent - NormalShift(mantissa) == -126 - NormalShift(m)
      decreases B24 - mantissa
    {
      mantissa := mantissa * 2;
      exponent := exponent - 1;
      LeadingBit(mantissa);
    }
  }

  method FloatToDouble(f: Float) returns (v: int)
    ensures v == FloatToDoubleBits(f)
  {
    var sign := f / B31 % 2;
    var exponent: int := f / B23 % 256 - 127;
    var mantissa := f % B23;
    if exponent == 128 {
      exponent := 1024;
    } else if exponent == -127 {
      if mantissa == 0 {
        exponent := -1023;
      } else {
        mantissa, exponent := Normalise(mantissa);
        mantissa := mantissa % B23;
      }
    }
    v := mantissa * B29;
    v := v + (exponent + 1023) * B52;
    v := v + sign * B63;
  }

  method DoubleToFloat(v: Double) returns (f: nat)
    ensures f == DoubleToFloatBits(v)
  {
    hide ShiftRight, WithSign;
    var sign := v / B63 % 2;
    var exponent: int := v / B52 % 2048 - 1023;
    var mantissa := v / B28 % B24;
    if exponent == 1024 {
      exponent := 128;
    } else if exponent > 127 {
      return WithSign(FLOAT_INFINITY, sign);
    } else if exponent < -150 {
      return WithSign(0, sign);
    } else if exponent < -126 {
      mantissa := mantissa + B24;
      mantissa := ShiftRight(mantissa, -126 - exponent);
      exponent := -127;
    }
    mantissa := (mantissa + 1) / 2;
    if mantissa / B23 % 2 != 0 {
      exponent := exponent + 1;
      mantissa := mantissa % B23;
      mantissa := mantissa / 2;
    }
    f := mantissa;
    f := f + (exponent + 127) * B23;
    f := WithSign(f, sign);
  }

  // ----- Arithmetic -----

  lemma PowerValues()
    ensures Pow2(28) == B28 && Pow2(29) == B29
  {
    assert Pow2(8) == 256;
    Pow2Add(8, 8);
    Pow2Add(16, 8);
    assert Pow2(4) == 16;
    Pow2Add(24, 4);
    Pow2Add(1, 28);
  }

  lemma {:induction false} ShiftRightBounds(x: nat, s: nat)
    ensures ShiftRight(x, s) * Pow2(s) <= x < (ShiftRight(x, s) + 1) * Pow2(s)
    decreases s
  {
    if s > 0 {
      var q, p := ShiftRight(x / 2, s - 1), Pow2(s - 1);
      ShiftRightBounds(x / 2, s - 1);
      Doubled(q, p);
      Doubled(q + 1, p);
    }
  }

  // ----- The order of floats -----

  /** Within a binade, its upper end included, floats are evenly spaced. */
  lemma FloatBinade(e: nat, q: nat)
    requires e >= 1 && q <= B23
    ensures FloatMag(e * B23 + q) == (B23 + q) * Pow2(e - 1)
  {
    if q == B23 {
      assert (e * B23 + q) / B23 == e + 1 && (e * B23 + q) % B23 == 0;
      assert Pow2(e) == 2 * Pow2(e - 1);
    } else {
      assert (e * B23 + q) / B23 == e && (e * B23 + q) % B23 == q;
    }
  }

  lemma FloatSubnormal(q: nat)
    requires q <= B23
    ensures FloatMag(q) == q
  {
    assert Pow2(0) == 1;
  }

  lemma FloatStep(k: nat)
    ensures FloatMag(k) < FloatMag(k + 1)
  {
    var e, m := k / B23, k % B23;
    assert k == e * B23 + m;
    if e == 0 {
      FloatSubnormal(m);
      FloatSubnormal(m + 1);
    } else {
      FloatBinade(e, m);
      FloatBinade(e, m + 1);
      MulLess(B23 + m, B23 + m + 1, Pow2(e - 1));
    }
  }

  lemma {:induction false} FloatIncreasing(a: nat, b: nat)
    requires a <= b
    ensures FloatMag(a) <= FloatMag(b)
    ensures a < b ==> FloatMag(a) < FloatMag(b)
    decreases b
  {
    hide FloatMag;
    if a < b {
      FloatIncreasing(a, b - 1);
      FloatStep(b - 1);
    }
  }

  // ----- Rounding -----

  /** Where d lies between r and its neighbours decides that r is nearest. */
  lemma NearestByNeighbours(d: nat, r: nat)
    requires r <= FLOAT_INFINITY
    requires r > 0 ==>
      || DoubleMag(d) >= FloatMag(r) * Scale()
      || 2 * DoubleMag(d) >= (FloatMag(r - 1) + FloatMag(r)) * Scale()
    requires r < FLOAT_INFINITY ==>
      || DoubleMag(d) <= FloatMag(r) * Scale()
      || 2 * DoubleMag(d) < (FloatMag(r) + FloatMag(r + 1)) * Scale()
    ensures NearestTiesAway(d, r)
  {
    hide FloatMag, DoubleMag, Scale;
    var s, x, y := Scale(), DoubleMag(d), FloatMag(r);
    forall g: nat | g <= FLOAT_INFINITY && g != r
      ensures
        var here, there := Distance(x, y * s), Distance(x, FloatMag(g) * s);
        here < there || (here == there && g < r)
    {
      if g < r {
        FloatIncreasing(g, r - 1);
        FloatIncreasing(g, r);
        NearerThanBelow(x, FloatMag(g), FloatMag(r - 1), y, s);
      } else {
        FloatIncreasing(r + 1, g);
        FloatIncreasing(r, g);
        NearerThanAbove(x, y, FloatMag(r + 1), FloatMag(g), s);
      }
    }
  }

  lemma NearerThanBelow(x: nat, g: nat, below: nat, y: nat, s: nat)
    requires g <= below && g < y && s > 0
    requires x >= y * s || 2 * x >= (below + y) * s
    ensures Distance(x, y * s) <= Distance(x, g * s)
  {
    MulLess(g, y, s);
    MulLess(g + y, below + y, s);
    assert (g + y) * s == g * s + y * s;
  }

  lemma NearerThanAbove(x: nat, y: nat, above: nat, g: nat, s: nat)
    requires above <= g && y < g && s > 0
    requires x <= y * s || 2 * x < (y + above) * s
    ensures Distance(x, y * s) < Distance(x, g * s)
  {
    MulLess(y, g, s);
    MulLess(y + above, y + g, s);
    assert (y + g) * s == y * s + g * s;
  }

  /** The halving that rounds: x lies within half a unit of h around q units, ties going up. */
  lemma RoundHalf(x: nat, top: nat, h: nat)
    requires h > 0 && top * h <= x < (top + 1) * h
    ensures
      var q := (top + 1) / 2;
      (q > 0 ==> 2 * x >= ((q - 1) + q) * (2 * h)) && 2 * x < (q + (q + 1)) * (2 * h)
  {
    var q := (top + 1) / 2;
    if q > 0 {
      MulLess(2 * q - 1, top, h);
    }
    MulLess(top + 1, 2 * q + 1, h);
    assert ((q - 1) + q) * (2 * h) == 2 * ((2 * q - 1) * h);
    assert (q + (q + 1)) * (2 * h) == 2 * ((2 * q + 1) * h);
  }

  lemma ScaleIs()
    ensures Scale() == Pow2(925)
  {
  }

  lemma ScaleNormal(e: nat)
    requires e >= 897
    ensures Pow2(e - 897) * Scale() == B29 * Pow2(e - 1)
  {
    ScaleIs();
    hide Pow2, Scale;
    Pow2Add(e - 897, 925);
    Pow2Add(29, e - 1);
    PowerValues();
  }

  lemma ScaleSubnormal(e: nat)
    requires 873 <= e < 897
    ensures Scale() == 2 * Pow2(28 + 897 - e) * Pow2(e - 1)
    ensures Pow2(28 + 897 - e) == B28 * Pow2(897 - e)
  {
    ScaleIs();
    hide Pow2, Scale;
    Pow2Add(29 + 897 - e, e - 1);
    Pow2Add(28, 897 - e);
    Pow2Add(1, 28 + 897 - e);
    PowerValues();
    OneBit();
  }

  lemma DoubleBinade(e: nat, m: nat)
    requires 1 <= e < 2048 && m < B52
    ensures DoubleMag(e * B52 + m) == (B52 + m) * Pow2(e - 1)
  {
    assert (e * B52 + m) / B52 == e && (e * B52 + m) % B52 == m;
  }

  /** Results in the range of normal floats, with the carry into the exponent. */
  lemma NormalRounds(e: nat, m: nat)
    requires 897 <= e <= 1150 && m < B52
    ensures NearestTiesAway(e * B52 + m, (e - 896) * B23 + (m / B28 + 1) / 2)
  {
    hide FloatMag, DoubleMag, Scale, Pow2, NearestTiesAway;
    var top := m / B28;
    var q := (top + 1) / 2;
    var r := (e - 896) * B23 + q;
    var s, u, p := Scale(), Pow2(e - 1), Pow2(e - 897);
    assert q <= B23;
    RoundHalf(m, top, B28);
    DoubleBinade(e, m);
    ScaleNormal(e);
    FloatBinade(e - 896, q);
    Regroup(B23 + q, p, s);
    Regroup(B23 + q, B29, u);
    // FloatMag(r) * s == (B23 + q) * B29 * u
    if q > 0 {
      FloatBinade(e - 896, q - 1);
      Between(B52 + m, B23 + q - 1, B23 + q, B29, u, p, s);
    } else {
      MulLess(B23 * B29, B52 + m, u);
    }
    if q < B23 {
      FloatBinade(e - 896, q + 1);
      Between(B52 + m, B23 + q, B23 + q + 1, B29, u, p, s);
    } else {
      MulLess(B52 + m, (B23 + q) * B29, u);
    }
    NearestByNeighbours(e * B52 + m, r);
  }

  /** A comparison with the middle of two neighbours, carried from one unit to another. */
  lemma Between(x: nat, a: nat, b: nat, w: nat, u: nat, p: nat, s: nat)
    requires p * s == w * u && u > 0
    ensures 2 * x >= (a + b) * w ==> 2 * (x * u) >= (a * p + b * p) * s
    ensures 2 * x < (a + b) * w ==> 2 * (x * u) < (a * p + b * p) * s
  {
    var t := (a + b) * w;
    assert (a * p + b * p) * s == t * u by {
      assert a * p + b * p == (a + b) * p;
      Regroup(a + b, p, s);
      Regroup(a + b, w, u);
    }
    assert 2 * (x * u) == (2 * x) * u;
    if 2 * x >= t {
      MulLess(t, 2 * x, u);
    } else {
      MulLess(2 * x, t, u);
    }
  }

  /** Results among the subnormal floats, up to the carry to the smallest normal one. */
  lemma SubnormalRounds(e: nat, m: nat, q: nat)
    requires 873 <= e < 897 && m < B52 && q == (ShiftRight(B24 + m / B28, 897 - e) + 1) / 2
    ensures q <= B23 && NearestTiesAway(e * B52 + m, q)
  {
    hide Scale, Pow2, DoubleMag, NearestTiesAway, ShiftRight;
    SubnormalArithmetic(e, m, q);
    DoubleBinade(e, m);
    NearestSubnormal(e * B52 + m, q);
  }

  lemma NearestSubnormal(d: nat, q: nat)
    requires q <= B23
    requires q > 0 ==> 2 * DoubleMag(d) >= ((q - 1) + q) * Scale()
    requires q < B23 ==> 2 * DoubleMag(d) < (q + (q + 1)) * Scale()
    requires q == B23 ==> DoubleMag(d) <= q * Scale()
    ensures NearestTiesAway(d, q)
  {
    hide Scale, DoubleMag, FloatMag, NearestTiesAway;
    FloatSubnormal(q);
    if q > 0 {
      FloatSubnormal(q - 1);
    }
    if q < B23 {
      FloatSubnormal(q + 1);
    }
    NearestByNeighbours(d, q);
  }

  lemma SubnormalArithmetic(e: nat, m: nat, q: nat)
    requires 873 <= e < 897 && m < B52 && q == (ShiftRight(B24 + m / B28, 897 - e) + 1) / 2
    ensures
      var d := (B52 + m) * Pow2(e - 1);
      && q <= B23
      && (q > 0 ==> 2 * d >= ((q - 1) + q) * Scale())
      && (q < B23 ==> 2 * d < (q + (q + 1)) * Scale())
      && (q == B23 ==> d <= q * Scale())
  {
    hide Scale, Pow2, ShiftRight;
    var sh, t := 897 - e, B24 + m / B28;
    var top := ShiftRight(t, sh);
    var h, u, s := Pow2(28 + sh), Pow2(e - 1), Scale();
    TopOfSubnormal(B52 + m, t, top, sh);
    RoundHalf(B52 + m, top, h);
    ScaleSubnormal(e);
    assert s == 2 * h * u && q == (top + 1) / 2 && q <= B23;
    SubnormalNeighbours(B52 + m, q, h, u, s);
  }

  lemma SubnormalNeighbours(x: nat, q: nat, h: nat, u: nat, s: nat)
    requires q <= B23 && x < 2 * B52 && h >= 2 * B28 && u > 0 && s == 2 * h * u
    requires (q > 0 ==> 2 * x >= ((q - 1) + q) * (2 * h)) && 2 * x < (q + (q + 1)) * (2 * h)
    ensures q > 0 ==> 2 * (x * u) >= ((q - 1) + q) * s
    ensures q < B23 ==> 2 * (x * u) < (q + (q + 1)) * s
    ensures q == B23 ==> x * u <= q * s
  {
    assert 1 * s == (2 * h) * u;
    if q > 0 {
      Between(x, q - 1, q, 2 * h, u, 1, s);
    }
    if q < B23 {
      Between(x, q, q + 1, 2 * h, u, 1, s);
    } else {
      MulLess(2 * B28, h, B23);
      MulLess(x, B23 * (2 * h), u);
      Regroup(B23, 2 * h, u);
    }
  }

  lemma TopOfSubnormal(x: nat, t: nat, top: nat, sh: nat)
    requires 1 <= sh && B52 <= x < 2 * B52 && t == x / B28 && top == ShiftRight(t, sh)
    ensures top * Pow2(28 + sh) <= x < (top + 1) * Pow2(28 + sh)
    ensures top < B24
    ensures Pow2(28 + sh) >= 2 * B28
  {
    hide Pow2, ShiftRight;
    ShiftRightBounds(t, sh);
    Pow2Add(28, sh);
    PowerValues();
    var p := Pow2(sh);
    assert p >= 2 by { Pow2Add(1, sh - 1); OneBit(); }
    MulLess(2, p, top);
    assert 2 * top <= t < 2 * B24;
    WidenBounds(x, t, top, p);
  }

  lemma WidenBounds(x: nat, t: nat, top: nat, p: nat)
    requires t == x / B28 && top * p <= t < (top + 1) * p
    ensures top * (B28 * p) <= x < (top + 1) * (B28 * p)
  {
    var lo, hi := top * p, (top + 1) * p;
    assert lo * B28 <= t * B28 <= x;
    assert x < (t + 1) * B28 <= hi * B28;
    Swap(top, p);
    Swap(top + 1, p);
  }

  lemma Swap(a: nat, p: nat)
    ensures (a * p) * B28 == a * (B28 * p)
  {
  }

  lemma TooSmall(e: nat, m: nat)
    requires e < 873 && m < B52
    ensures NearestTiesAway(e * B52 + m, 0)
  {
    hide FloatMag, DoubleMag, Pow2, NearestTiesAway, Scale;
    DoubleBound(e, m);
    Pow2Monotone(e, 872);
    ScaleSubnormal(873);
    PowerValues();
    Pow2Add(24, 28);
    Pow2Add(28, 24);
    MulLess(Pow2(e), Pow2(872), B52);
    Pow24();
    FloatSubnormal(0);
    FloatSubnormal(1);
    NearestByNeighbours(e * B52 + m, 0);
  }

  lemma Pow24()
    ensures Pow2(24) == B24
  {
    assert Pow2(8) == 256;
    Pow2Add(8, 8);
    Pow2Add(16, 8);
  }

  lemma DoubleBound(e: nat, m: nat)
    requires e < 2048 && m < B52
    ensures DoubleMag(e * B52 + m) < B52 * Pow2(e) && (e >= 1 ==> DoubleMag(e * B52 + m) >= B52 * Pow2(e - 1))
  {
    if e >= 1 {
      DoubleBinade(e, m);
      hide DoubleMag;
      MulLess(B52 + m, 2 * B52, Pow2(e - 1));
      MulLess(B52, B52 + m, Pow2(e - 1));
    } else {
      assert (e * B52 + m) / B52 == 0 && (e * B52 + m) % B52 == m;
    }
  }

  lemma TooLarge(e: nat, m: nat)
    requires 1151 <= e < 2048 && m < B52
    ensures NearestTiesAway(e * B52 + m, FLOAT_INFINITY)
  {
    hide FloatMag, DoubleMag, Pow2, NearestTiesAway, Scale;
    DoubleBound(e, m);
    Pow2Monotone(1150, e - 1);
    FloatBinade(255, 0);
    ScaleNormal(1151);
    MulLess(Pow2(1150), Pow2(e - 1), B52);
    Regroup(B23, Pow2(254), Scale());
    Regroup(B23, B29, Pow2(1150));
    NearestByNeighbours(e * B52 + m, FLOAT_INFINITY);
  }

  // ----- Main results -----

  /** The rounding of magnitudes. */
  lemma RoundsMagnitude(e: nat, m: nat)
    requires e <= 2047 && m < B52 && (e == 2047 ==> m == 0)
    ensures NearestTiesAway(e * B52 + m, RoundMagnitude(e, m / B28))
  {
    hide NearestTiesAway, ShiftRight, FloatMag, DoubleMag, Pow2, Scale;
    var r := RoundMagnitude(e, m / B28);
    if e == 2047 || e > 1150 {
      TooLarge(e, m);
      assert r == FLOAT_INFINITY;
    } else if e < 873 {
      TooSmall(e, m);
    } else if e < 897 {
      var q := (ShiftRight(B24 + m / B28, 897 - e) + 1) / 2;
      SubnormalRounds(e, m, q);
      Carry(0, q);
    } else {
      NormalRounds(e, m);
      Carry(e - 896, (m / B28 + 1) / 2);
    }
  }

  lemma Carry(expo: nat, q: nat)
    requires q <= B23
    ensures (if q / B23 % 2 != 0 then (expo + 1) * B23 + q % B23 / 2 else expo * B23 + q) == expo * B23 + q
  {
  }

  /** double_to_float rounds every double that is not a NaN to the nearest float, ties away from
      zero, with subnormal results, carries into the exponent and overflow to infinity included;
      the sign is kept. */
  lemma RoundsToNearest(v: Double)
    requires v % B63 <= DOUBLE_INFINITY
    ensures
      var f := DoubleToFloatBits(v);
      f < B32 && f / B31 == v / B63 && NearestTiesAway(v % B63, f % B31)
  {
    hide RoundMagnitude, FloatMag, DoubleMag, Scale;
    var e, m := v % B63 / B52, v % B63 % B52;
    FieldsOf(v);
    RoundsMagnitude(e, m);
    assert v % B63 == e * B52 + m;
    SignSplit(RoundMagnitude(e, m / B28), v / B63);
  }

  lemma SignSplit(r: nat, sign: nat)
    requires r <= FLOAT_INFINITY && sign <= 1
    ensures WithSign(r, sign) < B32 && WithSign(r, sign) / B31 == sign && WithSign(r, sign) % B31 == r
  {
  }

  lemma FieldsOf(v: Double)
    ensures v / B52 % 2048 == v % B63 / B52
    ensures v / B28 % B24 == v % B63 % B52 / B28
    ensures v / B63 <= 1 && v % B63 / B52 < 2048
    ensures v % B63 <= DOUBLE_INFINITY && v % B63 / B52 == 2047 ==> v % B63 % B52 == 0
  {
    ExponentField(v);
    MantissaField(v);
  }

  lemma ExponentField(v: Double)
    ensures v / B52 % 2048 == v % B63 / B52
  {
    var sign, d := v / B63, v % B63;
    assert v / B52 == sign * 2048 + d / B52;
  }

  lemma MantissaField(v: Double)
    ensures v / B28 % B24 == v % B63 % B52 / B28
  {
    var high, m := v / B52, v % B52;
    assert v / B28 == high * B24 + m / B28;
    assert v % B63 % B52 == m;
  }

  /** The fields float_to_double puts together. */
  lemma Assembled(frac: nat, expo: nat, sign: nat)
    requires frac < B23 && expo < 2048 && sign <= 1
    ensures
      var v := frac * B29 + expo * B52 + sign * B63;
      && v < B64 && v / B63 == sign && v % B63 == expo * B52 + frac * B29
      && v / B52 % 2048 == expo && v / B28 % B24 == 2 * frac
  {
    var v := frac * B29 + expo * B52 + sign * B63;
    assert expo * B52 + frac * B29 < B63;
    assert v / B63 == sign && v % B63 == expo * B52 + frac * B29;
    assert v / B52 == sign * 2048 + expo;
    assert v / B28 == (sign * 2048 + expo) * B24 + 2 * frac;
  }

  lemma ShiftLimit(m: nat)
    requires 0 < m < B24
    ensures NormalShift(m) < 24
    ensures Normal(m) == m * Pow2(NormalShift(m))
  {
    NormalIs(m);
    var n := NormalShift(m);
    if n >= 24 {
      Pow2Monotone(24, n);
      Pow24();
      hide Pow2, NormalShift;
      MulLess(1, m, Pow2(n));
    }
  }

  lemma {:induction false} NormalIs(m: nat)
    requires 0 < m < B24
    ensures Normal(m) == m * Pow2(NormalShift(m))
    decreases B24 - m
  {
    if m < B23 {
      NormalIs(2 * m);
      var p := Pow2(NormalShift(2 * m));
      assert (2 * m) * p == m * (2 * p);
    }
  }

  lemma WidenedBounds(e: nat, m: nat)
    requires e < 256 && m < B23
    ensures 0 <= Widened(e, m).0 < 2048 && Widened(e, m).1 < B23
    ensures e == 0 && m != 0 ==> Widened(e, m).1 == Normal(m) - B23
  {
    hide NormalShift, Normal;
    if e == 0 && m != 0 {
      ShiftLimit(m);
    }
  }

  lemma FloatToDoubleFields(f: Float)
    ensures
      var (expo, frac) := Widened(f % B31 / B23, f % B31 % B23);
      && 0 <= expo < 2048 && frac < B23
      && FloatToDoubleBits(f) == frac * B29 + expo * B52 + f / B31 * B63
  {
    hide Widened;
    FloatFields(f);
    WidenedBounds(f % B31 / B23, f % B31 % B23);
  }

  lemma FloatFields(f: Float)
    ensures f / B23 % 256 == f % B31 / B23 && f % B23 == f % B31 % B23 && f / B31 <= 1 && f % B31 / B23 < 256
  {
    var high, m := f / B23, f % B23;
    assert f == high / 256 * B31 + high % 256 * B23 + m;
  }

  /** float_to_double is exact on finite floats, and keeps the sign; infinity goes to infinity and
      a NaN to a NaN. */
  lemma FloatToDoubleIsExact(f: Float)
    ensures 0 <= FloatToDoubleBits(f) < B64
    ensures
      var v, k := FloatToDoubleBits(f), f % B31;
      && v / B63 == f / B31
      && (k < FLOAT_INFINITY ==> v % B63 < DOUBLE_INFINITY && DoubleMag(v % B63) == FloatMag(k) * Scale())
      && (k == FLOAT_INFINITY ==> v % B63 == DOUBLE_INFINITY)
      && (k > FLOAT_INFINITY ==> v % B63 > DOUBLE_INFINITY)
  {
    hide FloatMag, DoubleMag, Scale, FloatToDoubleBits, Pow2;
    var k := f % B31;
    var (expo, frac) := Widened(k / B23, k % B23);
    FloatToDoubleFields(f);
    FloatFields(f);
    Assembled(frac, expo, f / B31);
    if k < FLOAT_INFINITY {
      WideValue(k);
    }
  }

  lemma WideValue(k: nat)
    requires k < FLOAT_INFINITY
    ensures
      var (expo, frac) := Widened(k / B23, k % B23);
      0 <= expo < 2047 && frac < B23 && DoubleMag(expo * B52 + frac * B29) == FloatMag(k) * Scale()
  {
    hide FloatMag, DoubleMag, Scale, Pow2, Normal, NormalShift;
    var e, m := k / B23, k % B23;
    assert k == e * B23 + m;
    WidenedBounds(e, m);
    if e > 0 {
      DoubleBinade(e + 896, m * B29);
      FloatBinade(e, m);
      ScaleNormal(e + 896);
      Regroup(B23 + m, Pow2(e - 1), Scale());
      Regroup(B23 + m, B29, Pow2(e + 895));
    } else {
      FloatSubnormal(m);
      if m == 0 {
        ZeroMag();
      } else {
        ShiftLimit(m);
        var n := NormalShift(m);
        var frac := Normal(m) - B23;
        DoubleBinade(897 - n, frac * B29);
        Regroup(Normal(m), B29, Pow2(896 - n));
        SubnormalScale(n);
        Regroup(m, Pow2(n), B29 * Pow2(896 - n));
      }
    }
  }

  lemma ZeroMag()
    ensures DoubleMag(0) == 0
  {
  }

  lemma SubnormalScale(n: nat)
    requires n <= 896
    ensures Pow2(n) * (B29 * Pow2(896 - n)) == Scale()
  {
    ScaleIs();
    hide Pow2, Scale;
    PowerValues();
    Pow2Add(n, 896 - n);
    Pow2Add(29, 896);
    var p, q := Pow2(n), Pow2(896 - n);
    assert p * (B29 * q) == B29 * (p * q);
  }

  /** Converting a float to double and back returns the same bit pattern, for every pattern. */
  lemma RoundTrip(f: Float)
    ensures 0 <= FloatToDoubleBits(f) < B64
    ensures DoubleToFloatBits(FloatToDoubleBits(f)) == f
  {
    hide DoubleToFloatBits, FloatToDoubleBits, NearestTiesAway, FloatMag, DoubleMag, Scale;
    FloatToDoubleIsExact(f);
    var v, k := FloatToDoubleBits(f), f % B31;
    if k < FLOAT_INFINITY {
      RoundsToNearest(v);
      NearestToExact(v % B63, DoubleToFloatBits(v) % B31, k);
      SameParts(f, DoubleToFloatBits(v));
    } else {
      SpecialRoundTrip(f);
    }
  }

  lemma SameParts(f: nat, g: nat)
    requires f / B31 == g / B31 && f % B31 == g % B31
    ensures f == g
  {
  }

  lemma SpecialRoundTrip(f: Float)
    requires f % B31 >= FLOAT_INFINITY && 0 <= FloatToDoubleBits(f) < B64
    ensures DoubleToFloatBits(FloatToDoubleBits(f)) == f
  {
    hide FloatToDoubleBits, RoundMagnitude, WithSign;
    var k := f % B31;
    FloatToDoubleFields(f);
    FloatFields(f);
    Assembled(k % B23, 2047, f / B31);
    SpecialBack(k);
    SignBack(f);
  }

  /** Infinity and NaNs, whose mantissa bits have a zero behind them now. */
  lemma SpecialBack(k: nat)
    requires FLOAT_INFINITY <= k < B31
    ensures RoundMagnitude(2047, 2 * (k % B23)) == k
  {
    assert (2 * (k % B23) + 1) / 2 == k % B23;
  }

  lemma SignBack(f: Float)
    ensures WithSign(f % B31, f / B31) == f
  {
  }

  lemma NearestToExact(d: nat, r: nat, k: nat)
    requires NearestTiesAway(d, r) && DoubleMag(d) == FloatMag(k) * Scale() && k <= FLOAT_INFINITY
    ensures r == k
  {
    hide FloatMag, DoubleMag, Scale;
    if k < r {
      FloatIncreasing(k, r);
      MulLess(FloatMag(k), FloatMag(r), Scale());
    }
  }

  /** A NaN stays a NaN exactly if rounding its payload neither vanishes nor carries out: the 24
      leading mantissa bits must be neither all zero nor all one. */
  lemma NanStaysNan(v: Double)
    requires v % B63 > DOUBLE_INFINITY
    ensures
      var m := v / B28 % B24;
      DoubleToFloatBits(v) % B31 > FLOAT_INFINITY <==> 0 < m < B24 - 1
  {
    ExponentField(v);
    var m := v / B28 % B24;
    assert v / B52 % 2048 == 2047;
    assert m == B24 - 1 ==> RoundMagnitude(2047, m) == B31;
    assert m < B24 - 1 ==> RoundMagnitude(2047, m) == FLOAT_INFINITY + (m + 1) / 2;
  }
}
