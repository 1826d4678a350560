/** lib/crc8/Crc8.c: the SMBus packet error check, against division of polynomials over GF(2)
    (SMBus 2.0, section 5.4). */
module Crc8 {

  // ----- The code's own terms: one byte of state, shifted and reduced bit by bit -----

  /** One turn of the bit loop. */
  function ShiftBit(c: bv8): bv8 {
    if c & 0x80 != 0 then (c << 1) ^ 0x07 else c << 1
  }

  function ShiftBits(c: bv8, n: nat): bv8
    decreases n
  {
    if n == 0 then c else ShiftBits(ShiftBit(c), n - 1)
  }

  function CrcByte(crc: bv8, d: bv8): bv8 { ShiftBits(crc ^ d, 8) }

  /** The state after a block of bytes. */
  function CrcOf(crc: bv8, s: seq<bv8>): bv8
    decreases |s|
  {
    if s == [] then crc else CrcOf(CrcByte(crc, s[0]), s[1..])
  }

  method Crc8(inCrc: bv8, inData: bv8) returns (data: bv8)
    ensures data == CrcByte(inCrc, inData)
  {
    data := inCrc ^ inData;
    var i := 0;
    while i < 8
      invariant 0 <= i <= 8
      invariant ShiftBits(data, 8 - i) == CrcByte(inCrc, inData)
    {
      if data & 0x80 != 0 {
        data := data << 1;
        data := data ^ 0x07;
      } else {
        data := data << 1;
      }
      i := i + 1;
    }
  }

  method Crc8Block(inCrc: bv8, data: array<bv8>, inLen: nat) returns (crc: bv8)
    requires inLen <= data.Length && inLen < 256
    ensures crc == CrcOf(inCrc, data[..inLen])
  {
    crc := inCrc;
    var at, len := 0, inLen;
    while len > 0
      invariant at + len == inLen
      invariant CrcOf(crc, data[at..inLen]) == CrcOf(inCrc, data[..inLen])
    {
      assert data[at..inLen][1..] == data[at + 1..inLen];
      crc := Crc8(crc, data[at]);
      at := at + 1;
      len := len - 1;
    }
  }

  // ----- Polynomials over GF(2), highest power first -----

  type Poly = seq<bool>

  function Zero(n: nat): (p: Poly)
    ensures |p| == n && forall i :: 0 <= i < n ==> !p[i]
  {
    seq(n, _ => false)
  }

  function Xor(p: Poly, q: Poly): (r: Poly)
    requires |p| == |q|
    ensures |r| == |p| && forall i :: 0 <= i < |p| ==> r[i] == (p[i] != q[i])
  {
    seq(|p|, i requires 0 <= i < |p| => p[i] != q[i])
  }

  /** Product by Horner's rule over the coefficients of q. */
  function Mul(q: Poly, p: Poly): (r: Poly)
    requires |p| >= 1
    ensures |r| == |q| + |p| - 1
  {
    if q == [] then Zero(|p| - 1)
    else
      var n := |q| - 1;
      Xor(Mul(q[..n], p) + [false], Term(q[n], p, n))
  }

  /** The coefficient b times p, aligned below n zero coefficients. */
  function Term(b: bool, p: Poly, n: nat): (r: Poly)
    ensures |r| == n + |p|
    ensures forall i :: 0 <= i < n + |p| ==> r[i] == (b && i >= n && p[i - n])
  {
    if b then Zero(n) + p else Zero(n + |p|)
  }

  /** x^8 + x^2 + x + 1. */
  const POLYNOMIAL: Poly := [true, false, false, false, false, false, true, true, true]

  /** r is the remainder of a on division by the CRC polynomial. */
  ghost predicate IsRemainder(a: Poly, r: Poly) {
    |r| == 8 && |a| >= 8 &&
    exists q: Poly :: |q| == |a| - 8 && a == Xor(Mul(q, POLYNOMIAL), Zero(|q|) + r)
  }

  /** A byte as a polynomial of degree below 8. */
  function BitsOf(d: bv8): (p: Poly)
    ensures |p| == 8
  {
    [d & 0x80 != 0, d & 0x40 != 0, d & 0x20 != 0, d & 0x10 != 0,
     d & 0x08 != 0, d & 0x04 != 0, d & 0x02 != 0, d & 0x01 != 0]
  }

  /** A message as a polynomial, first byte highest. */
  function MessageBits(s: seq<bv8>): (p: Poly)
    ensures |p| == 8 * |s|
  {
    if s == [] then [] else BitsOf(s[0]) + MessageBits(s[1..])
  }

  // ----- The same register fed bit by bit -----

  function Top(c: bv8, b: bool): bool { (c & 0x80 != 0) != b }

  function FeedBit(c: bv8, b: bool): bv8 {
    if Top(c, b) then (c << 1) ^ 0x07 else c << 1
  }

  function Feed(c: bv8, m: Poly): bv8 {
    if m == [] then c else FeedBit(Feed(c, m[..|m| - 1]), m[|m| - 1])
  }

  lemma {:induction false} FeedAppend(c: bv8, m: Poly, n: Poly)
    ensures Feed(c, m + n) == Feed(Feed(c, m), n)
    decreases |n|
  {
    if n == [] {
      assert m + n == m;
    } else {
      var k := |n| - 1;
      assert (m + n)[..|m| + k] == m + n[..k];
      FeedAppend(c, m, n[..k]);
    }
  }

  /** Eight turns of the byte loop are eight bits fed. */
  lemma FeedByte(c: bv8, d: bv8)
    ensures Feed(c, BitsOf(d)) == CrcByte(c, d)
  {
    var m := BitsOf(d);
    assert m[..0] == [] && m[..8] == m;
    FeedTake(c, m, 1);
    FeedTake(c, m, 2);
    FeedTake(c, m, 3);
    FeedTake(c, m, 4);
    FeedTake(c, m, 5);
    FeedTake(c, m, 6);
    FeedTake(c, m, 7);
    FeedTake(c, m, 8);
    EightTurns(c, d);
  }

  lemma FeedTake(c: bv8, m: Poly, k: nat)
    requires 1 <= k <= |m|
    ensures Feed(c, m[..k]) == FeedBit(Feed(c, m[..k - 1]), m[k - 1])
  {
    assert m[..k][..k - 1] == m[..k - 1];
  }

  lemma EightTurns(c: bv8, d: bv8)
    ensures
      var m := BitsOf(d);
      FeedBit(FeedBit(FeedBit(FeedBit(FeedBit(FeedBit(FeedBit(FeedBit(c,
        m[0]), m[1]), m[2]), m[3]), m[4]), m[5]), m[6]), m[7]) == CrcByte(c, d)
  {
    var e := c ^ d;
    EightShifts(e);
  }

  lemma EightShifts(e: bv8)
    ensures ShiftBits(e, 8) == ShiftBit(ShiftBit(ShiftBit(ShiftBit(ShiftBit(ShiftBit(ShiftBit(ShiftBit(e))))))))
  {
    var e4 := ShiftBit(ShiftBit(ShiftBit(ShiftBit(e))));
    assert ShiftBits(e4, 4) == ShiftBit(ShiftBit(ShiftBit(ShiftBit(e4)))) by {
      assert ShiftBits(e4, 4) == ShiftBits(ShiftBit(ShiftBit(e4)), 2);
    }
    assert ShiftBits(e, 8) == ShiftBits(ShiftBit(ShiftBit(e)), 6);
    assert ShiftBits(ShiftBit(ShiftBit(e)), 6) == ShiftBits(e4, 4);
  }

  lemma {:induction false} FeedMessage(c: bv8, s: seq<bv8>)
    ensures Feed(c, MessageBits(s)) == CrcOf(c, s)
    decreases |s|
  {
    if s != [] {
      FeedAppend(c, BitsOf(s[0]), MessageBits(s[1..]));
      FeedByte(c, s[0]);
      FeedMessage(CrcByte(c, s[0]), s[1..]);
    }
  }

  // ----- The remainder -----

  /** The quotient bits: the bits that leave the register. */
  function Quotient(m: Poly): (q: Poly)
    ensures |q| == |m|
  {
    if m == [] then []
    else
      var n := |m| - 1;
      Quotient(m[..n]) + [Top(Feed(0, m[..n]), m[n])]
  }

  /** One more message bit: the new register is the old one times x, less the polynomial if the
      bit that leaves it, taken with the message bit, is set. */
  ghost predicate DivisionBit(p: Poly, b: bool, top: bool, r: Poly) {
    && |p| == |r| == 8 && top == (p[0] != b)
    && forall j :: 0 <= j < 8 ==> r[j] == ((j < 7 && p[j + 1]) != (top && POLYNOMIAL[j + 1]))
  }

  lemma FeedBitDivides(c: bv8, b: bool)
    ensures DivisionBit(BitsOf(c), b, Top(c, b), BitsOf(FeedBit(c, b)))
  {
    hide BitsOf, FeedBit, Top;
    var t, p, r := Top(c, b), BitsOf(c), BitsOf(FeedBit(c, b));
    FeedBitBits(c, b);
    forall j | 0 <= j < 8
      ensures r[j] == ((j < 7 && p[j + 1]) != (t && POLYNOMIAL[j + 1]))
    {
      assert POLYNOMIAL[j + 1] == (j >= 5);
    }
  }

  lemma FeedBitBits(c: bv8, b: bool)
    ensures
      var t, p, r := Top(c, b), BitsOf(c), BitsOf(FeedBit(c, b));
      t == (p[0] != b) && r == [p[1], p[2], p[3], p[4], p[5], p[6] != t, p[7] != t, t]
  {
  }

  /** The division step, coefficient by coefficient. */
  lemma OneMoreBit(m: Poly, product: Poly, b: bool, p: Poly, top: bool, r: Poly)
    requires |product| == |m| + 8 && DivisionBit(p, b, top, r)
    requires m + Zero(8) == Xor(product, Zero(|m|) + p)
    ensures
      var n := |m|;
      (m + [b]) + Zero(8) == Xor(Xor(product + [false], Term(top, POLYNOMIAL, n)), Zero(n + 1) + r)
  {
    var n := |m|;
    var t := Term(top, POLYNOMIAL, n);
    var lhs := (m + [b]) + Zero(8);
    var rhs := Xor(Xor(product + [false], t), Zero(n + 1) + r);
    forall i | 0 <= i < n + 9
      ensures lhs[i] == rhs[i]
    {
      if i < n {
        assert (m + Zero(8))[i] == (product[i] != (Zero(n) + p)[i]);
      } else if i < n + 8 {
        assert (m + Zero(8))[i] == (product[i] != (Zero(n) + p)[i]);
        assert product[i] == p[i - n];
        assert t[i] == (top && POLYNOMIAL[i - n]);
      } else {
        assert t[i] == top;
      }
    }
    assert lhs == rhs;
  }

  lemma {:induction false} DivisionStep(m: Poly)
    ensures m + Zero(8) == Xor(Mul(Quotient(m), POLYNOMIAL), Zero(|m|) + BitsOf(Feed(0, m)))
    decreases |m|
  {
    hide BitsOf, FeedBit, Top, Mul, Zero, Xor;
    if m == [] {
      NothingDivided();
    } else {
      var n := |m| - 1;
      var b, c := m[n], Feed(0, m[..n]);
      DivisionStep(m[..n]);
      FeedBitDivides(c, b);
      OneMoreBit(m[..n], Mul(Quotient(m[..n]), POLYNOMIAL), b, BitsOf(c), Top(c, b), BitsOf(FeedBit(c, b)));
      assert m == m[..n] + [b];
      MulLast(Quotient(m[..n]), Top(c, b));
    }
  }

  lemma NothingDivided()
    ensures [] + Zero(8) == Xor(Mul([], POLYNOMIAL), Zero(0) + BitsOf(0))
  {
    assert BitsOf(0) == Zero(8);
    assert [] + Zero(8) == Xor(Mul([], POLYNOMIAL), Zero(0) + BitsOf(0));
  }

  lemma MulLast(q: Poly, top: bool)
    ensures Mul(q + [top], POLYNOMIAL) ==
      Xor(Mul(q, POLYNOMIAL) + [false], Term(top, POLYNOMIAL, |q|))
  {
    assert (q + [top])[..|q|] == q;
  }

  /** Products are linear in the quotient. */
  lemma {:induction false} MulXor(q: Poly, r: Poly)
    requires |q| == |r|
    ensures Mul(Xor(q, r), POLYNOMIAL) == Xor(Mul(q, POLYNOMIAL), Mul(r, POLYNOMIAL))
    decreases |q|
  {
    hide Mul, Term;
    if q == [] {
      NothingMultiplied();
    } else {
      var n := |q| - 1;
      var q0, r0 := q[..n], r[..n];
      MulXor(q0, r0);
      assert Xor(q, r) == Xor(q0, r0) + [q[n] != r[n]] && q == q0 + [q[n]] && r == r0 + [r[n]];
      MulLast(Xor(q0, r0), q[n] != r[n]);
      MulLast(q0, q[n]);
      MulLast(r0, r[n]);
      XorStep(Mul(q0, POLYNOMIAL), Mul(r0, POLYNOMIAL), n, q[n], r[n]);
    }
  }

  lemma NothingMultiplied()
    ensures Xor([], []) == [] && Mul([], POLYNOMIAL) == Xor(Mul([], POLYNOMIAL), Mul([], POLYNOMIAL))
  {
  }

  lemma XorStep(a: Poly, b: Poly, n: nat, x: bool, y: bool)
    requires |a| == |b| == n + 8
    ensures
      Xor(Xor(a, b) + [false], Term(x != y, POLYNOMIAL, n)) ==
      Xor(Xor(a + [false], Term(x, POLYNOMIAL, n)), Xor(b + [false], Term(y, POLYNOMIAL, n)))
  {
    hide Term;
    var lhs := Xor(Xor(a, b) + [false], Term(x != y, POLYNOMIAL, n));
    var rhs := Xor(Xor(a + [false], Term(x, POLYNOMIAL, n)), Xor(b + [false], Term(y, POLYNOMIAL, n)));
    assert forall i :: 0 <= i < n + 9 ==> lhs[i] == rhs[i];
  }

  /** A product whose high coefficients vanish is a product with zero. */
  lemma {:induction false} HighPartVanishes(q: Poly)
    requires forall i :: 0 <= i < |q| ==> !Mul(q, POLYNOMIAL)[i]
    ensures q == Zero(|q|)
    decreases |q|
  {
    if q == [] {
      assert q == Zero(0);
    } else {
      var n := |q| - 1;
      var q0 := q[..n];
      assert q == q0 + [q[n]];
      MulLast(q0, q[n]);
      assert forall i :: 0 <= i < n ==> Mul(q, POLYNOMIAL)[i] == Mul(q0, POLYNOMIAL)[i];
      HighPartVanishes(q0);
      MulZero(n);
      assert Mul(q, POLYNOMIAL)[n] == q[n];
      assert q == Zero(|q|);
    }
  }

  lemma {:induction false} MulZero(n: nat)
    ensures Mul(Zero(n), POLYNOMIAL) == Zero(n + 8)
    decreases n
  {
    if n == 0 {
      assert Zero(0) == [];
    } else {
      MulZero(n - 1);
      assert Zero(n) == Zero(n - 1) + [false];
      MulLast(Zero(n - 1), false);
      hide Mul;
      assert Mul(Zero(n), POLYNOMIAL) == Zero(n + 8);
    }
  }

  /** Division by the polynomial has one remainder only. */
  lemma RemainderUnique(q: Poly, r: Poly, q': Poly, r': Poly)
    requires |q| == |q'| && |r| == |r'| == 8
    requires Xor(Mul(q, POLYNOMIAL), Zero(|q|) + r) == Xor(Mul(q', POLYNOMIAL), Zero(|q'|) + r')
    ensures r == r'
  {
    hide Mul;
    var n := |q|;
    SumsAgree(Mul(q, POLYNOMIAL), Mul(q', POLYNOMIAL), n, r, r');
    MulXor(q, q');
    HighPartVanishes(Xor(q, q'));
    MulZero(n);
    assert forall i :: 0 <= i < 8 ==> r[i] == r'[i];
  }

  lemma SumsAgree(a: Poly, b: Poly, n: nat, r: Poly, r': Poly)
    requires |a| == |b| == n + 8 && |r| == |r'| == 8
    requires Xor(a, Zero(n) + r) == Xor(b, Zero(n) + r')
    ensures forall i :: 0 <= i < n ==> !Xor(a, b)[i]
    ensures forall i :: 0 <= i < 8 ==> (r[i] == r'[i] <==> !Xor(a, b)[n + i])
  {
    var lhs, rhs := Xor(a, Zero(n) + r), Xor(b, Zero(n) + r');
    forall i | 0 <= i < n
      ensures !Xor(a, b)[i]
    {
      assert lhs[i] == rhs[i];
    }
    forall i | 0 <= i < 8
      ensures r[i] == r'[i] <==> !Xor(a, b)[n + i]
    {
      assert lhs[n + i] == rhs[n + i];
    }
  }

  /** The CRC of a message is the remainder of the message times x^8, and nothing else is. */
  lemma CrcIsRemainder(s: seq<bv8>, r: Poly)
    ensures IsRemainder(MessageBits(s) + Zero(8), r) <==> r == BitsOf(CrcOf(0, s))
  {
    var m := MessageBits(s);
    var a := m + Zero(8);
    DivisionStep(m);
    FeedMessage(0, s);
    assert IsRemainder(a, BitsOf(CrcOf(0, s))) by {
      assert |Quotient(m)| == |a| - 8;
    }
    if IsRemainder(a, r) {
      var q: Poly :| |q| == |a| - 8 && a == Xor(Mul(q, POLYNOMIAL), Zero(|q|) + r);
      RemainderUnique(q, r, Quotient(m), BitsOf(CrcOf(0, s)));
    }
  }

  /** The CRC of a lone 1 is what x^8 leaves: x^2 + x + 1. */
  lemma CrcOfOne()
    ensures CrcOf(0, [1]) == 0x07
  {
    assert CrcByte(0, 1) == 0x07;
    CrcOfFirst(0, [1]);
  }

  // ----- What follows for error detection -----

  function XorByte(c: bv8, d: bv8): bv8 { c ^ d }

  function XorBytes(s: seq<bv8>, t: seq<bv8>): (u: seq<bv8>)
    requires |s| == |t|
    ensures |u| == |s| && forall i :: 0 <= i < |s| ==> u[i] == XorByte(s[i], t[i])
  {
    seq(|s|, i requires 0 <= i < |s| => XorByte(s[i], t[i]))
  }

  /** What the reduction adds after the shift. */
  function Reduction(c: bv8): bv8 { if c & 0x80 != 0 then 0x07 else 0 }

  lemma ReductionXor(c: bv8, d: bv8)
    ensures Reduction(XorByte(c, d)) == XorByte(Reduction(c), Reduction(d))
  {
  }

  lemma DoubleXor(c: bv8, d: bv8)
    ensures XorByte(c, d) << 1 == XorByte(c << 1, d << 1)
  {
  }

  lemma ShiftBitSplit(c: bv8)
    ensures ShiftBit(c) == XorByte(c << 1, Reduction(c))
  {
  }

  lemma ShiftBitXor(c: bv8, d: bv8)
    ensures ShiftBit(XorByte(c, d)) == XorByte(ShiftBit(c), ShiftBit(d))
  {
    hide XorByte, ShiftBit, Reduction;
    ShiftBitSplit(c);
    ShiftBitSplit(d);
    ShiftBitSplit(XorByte(c, d));
    ReductionXor(c, d);
    DoubleXor(c, d);
    FourWayXor(c << 1, d << 1, Reduction(c), Reduction(d));
  }

  lemma {:induction false} ShiftBitsXor(c: bv8, d: bv8, n: nat)
    ensures ShiftBits(XorByte(c, d), n) == XorByte(ShiftBits(c, n), ShiftBits(d, n))
    decreases n
  {
    hide ShiftBit, XorByte;
    if n > 0 {
      ShiftBitXor(c, d);
      ShiftBitsXor(ShiftBit(c), ShiftBit(d), n - 1);
    }
  }

  lemma FourWayXor(c: bv8, d: bv8, x: bv8, y: bv8)
    ensures XorByte(XorByte(c, d), XorByte(x, y)) == XorByte(XorByte(c, x), XorByte(d, y))
  {
    hide XorByte;
    XorAssoc(c, d, XorByte(x, y));
    XorAssoc(d, x, y);
    XorComm(d, x);
    XorAssoc(x, d, y);
    XorAssoc(c, x, XorByte(d, y));
  }

  lemma XorAssoc(c: bv8, d: bv8, e: bv8)
    ensures XorByte(XorByte(c, d), e) == XorByte(c, XorByte(d, e))
  {
  }

  lemma XorComm(c: bv8, d: bv8)
    ensures XorByte(c, d) == XorByte(d, c)
  {
  }

  lemma CrcOfFirst(crc: bv8, s: seq<bv8>)
    requires s != []
    ensures CrcOf(crc, s) == CrcOf(ShiftBits(XorByte(crc, s[0]), 8), s[1..])
  {
  }

  /** The CRC is linear over xor, for every pair of starting states. */
  lemma {:induction false} CrcLinear(c: bv8, s: seq<bv8>, d: bv8, t: seq<bv8>)
    requires |s| == |t|
    ensures CrcOf(XorByte(c, d), XorBytes(s, t)) == XorByte(CrcOf(c, s), CrcOf(d, t))
    decreases |s|
  {
    hide ShiftBits, XorByte, XorBytes;
    if s != [] {
      hide CrcOf;
      var u := XorBytes(s, t);
      assert u[1..] == XorBytes(s[1..], t[1..]);
      CrcOfFirst(XorByte(c, d), u);
      CrcOfFirst(c, s);
      CrcOfFirst(d, t);
      FourWayXor(c, d, s[0], t[0]);
      var c', d' := XorByte(c, s[0]), XorByte(d, t[0]);
      ShiftBitsXor(c', d', 8);
      CrcLinear(ShiftBits(c', 8), s[1..], ShiftBits(d', 8), t[1..]);
    }
  }

  /** Parity of the coefficients: whether the number of those that are set is odd. */
  function Parity(p: Poly): bool {
    if p == [] then false else Parity(p[..|p| - 1]) != p[|p| - 1]
  }

  /** Parity of a byte by folding. */
  function ParityOf(c: bv8): bool {
    var x := c ^ (c >> 4);
    var y := x ^ (x >> 2);
    (y ^ (y >> 1)) & 1 != 0
  }

  lemma ParityTake(p: Poly, k: nat)
    requires 1 <= k <= |p|
    ensures Parity(p[..k]) == (Parity(p[..k - 1]) != p[k - 1])
  {
    assert p[..k][..k - 1] == p[..k - 1];
  }

  lemma ParityEight(p: Poly)
    requires |p| == 8
    ensures Parity(p) == (((((((p[0] != p[1]) != p[2]) != p[3]) != p[4]) != p[5]) != p[6]) != p[7])
  {
    assert p[..0] == [] && p[..8] == p;
    ParityTake(p, 1);
    ParityTake(p, 2);
    ParityTake(p, 3);
    ParityTake(p, 4);
    ParityTake(p, 5);
    ParityTake(p, 6);
    ParityTake(p, 7);
    ParityTake(p, 8);
  }

  lemma ParityOfBits(c: bv8)
    ensures ParityOf(c) == Parity(BitsOf(c))
  {
    ParityEight(BitsOf(c));
    hide Parity;
  }

  lemma FeedBitParity(c: bv8, b: bool)
    ensures ParityOf(FeedBit(c, b)) == (ParityOf(c) != b)
  {
  }

  lemma {:induction false} FeedParity(c: bv8, m: Poly)
    ensures ParityOf(Feed(c, m)) == (ParityOf(c) != Parity(m))
    decreases |m|
  {
    hide ParityOf, FeedBit;
    if m != [] {
      var n := |m| - 1;
      FeedParity(c, m[..n]);
      FeedBitParity(Feed(c, m[..n]), m[n]);
    }
  }

  /** x + 1 divides the polynomial, so the CRC has the parity of the message; every error in an
      odd number of bits changes the CRC. */
  lemma CrcParity(s: seq<bv8>)
    ensures Parity(BitsOf(CrcOf(0, s))) == Parity(MessageBits(s))
  {
    FeedMessage(0, s);
    FeedParity(0, MessageBits(s));
    ParityOfBits(CrcOf(0, s));
    assert !ParityOf(0);
  }

  function AtTop(b: bool): bv8 { if b then 0x80 else 0 }

  lemma FeedBitShifts(c: bv8, b: bool)
    ensures FeedBit(c, b) == ShiftBit(XorByte(c, AtTop(b)))
  {
  }

  lemma AtTopXor(a: bool, b: bool)
    ensures AtTop(a != b) == XorByte(AtTop(a), AtTop(b))
  {
  }

  lemma FeedBitXor(c: bv8, d: bv8, a: bool, b: bool)
    ensures FeedBit(XorByte(c, d), a != b) == XorByte(FeedBit(c, a), FeedBit(d, b))
  {
    FeedBitShifts(XorByte(c, d), a != b);
    FeedBitShifts(c, a);
    FeedBitShifts(d, b);
    AtTopXor(a, b);
    FourWayXor(c, d, AtTop(a), AtTop(b));
    ShiftBitXor(XorByte(c, AtTop(a)), XorByte(d, AtTop(b)));
    hide *;
  }

  lemma {:induction false} FeedXor(c: bv8, m: Poly, d: bv8, n: Poly)
    requires |m| == |n|
    ensures Feed(XorByte(c, d), Xor(m, n)) == XorByte(Feed(c, m), Feed(d, n))
    decreases |m|
  {
    hide FeedBit, XorByte;
    if m != [] {
      var k := |m| - 1;
      assert Xor(m, n)[..k] == Xor(m[..k], n[..k]);
      FeedXor(c, m[..k], d, n[..k]);
      FeedBitXor(Feed(c, m[..k]), Feed(d, n[..k]), m[k], n[k]);
    }
  }

  /** Zero bits keep a zero register zero and a nonzero one nonzero. */
  lemma {:induction false} FeedZeros(c: bv8, n: nat)
    ensures Feed(c, Zero(n)) == 0 <==> c == 0
    decreases n
  {
    if n > 0 {
      assert Zero(n)[..n - 1] == Zero(n - 1);
      FeedZeros(c, n - 1);
      FeedZeroBit(Feed(c, Zero(n - 1)));
      hide FeedBit;
    }
  }

  lemma FeedZeroBit(c: bv8)
    ensures FeedBit(c, false) == 0 <==> c == 0
  {
  }

  /** Up to eight message bits that are not all zero leave a nonzero register. */
  lemma BurstLeavesTrace(w: Poly)
    requires |w| <= 8 && w != Zero(|w|)
    ensures Feed(0, w) != 0
  {
    var full := w + Zero(8 - |w|);
    FeedAppend(0, w, Zero(8 - |w|));
    FeedZeros(Feed(0, w), 8 - |w|);
    var i :| 0 <= i < |w| && w[i] != Zero(|w|)[i];
    assert full[i];
    var d := AsByte(full);
    FeedByte(0, d);
    ShiftsNonzero(d);
  }

  lemma ShiftsNonzero(d: bv8)
    requires exists i :: 0 <= i < 8 && BitsOf(d)[i]
    ensures CrcByte(0, d) != 0
  {
    assert d != 0;
    assert 0 ^ d == d;
    EightShifts(d);
  }

  lemma AsByte(p: Poly) returns (d: bv8)
    requires |p| == 8
    ensures BitsOf(d) == p
  {
    var hi := Nibble(p[0], p[1], p[2], p[3]);
    var lo := Nibble(p[4], p[5], p[6], p[7]);
    d := (hi << 4) | lo;
  }

  function Nibble(a: bool, b: bool, c: bool, d: bool): bv8 {
    (if a then 8 else 0) | (if b then 4 else 0) | (if c then 2 else 0) | (if d then 1 else 0)
  }

  lemma {:induction false} MessageBitsInjective(s: seq<bv8>, t: seq<bv8>)
    requires |s| == |t| && MessageBits(s) == MessageBits(t)
    ensures s == t
    decreases |s|
  {
    if s != [] {
      var m, n := MessageBits(s), MessageBits(t);
      assert BitsOf(s[0]) == m[..8] && BitsOf(t[0]) == n[..8];
      assert MessageBits(s[1..]) == m[8..] && MessageBits(t[1..]) == n[8..];
      SameBits(s[0], t[0]);
      MessageBitsInjective(s[1..], t[1..]);
      assert s == [s[0]] + s[1..] && t == [t[0]] + t[1..];
    }
  }

  lemma SameBits(c: bv8, d: bv8)
    requires BitsOf(c) == BitsOf(d)
    ensures c == d
  {
    var p, q := BitsOf(c), BitsOf(d);
    assert p[0] == q[0] && p[1] == q[1] && p[2] == q[2] && p[3] == q[3];
    assert p[4] == q[4] && p[5] == q[5] && p[6] == q[6] && p[7] == q[7];
  }

  lemma BurstInBits(m: Poly, n: Poly, at: nat)
    requires |m| == |n| && m != n && at + 8 <= |m|
    requires forall i :: 0 <= i < |m| && !(at <= i < at + 8) ==> m[i] == n[i]
    ensures Feed(0, m) != Feed(0, n)
  {
    hide Feed, XorByte;
    var d := Xor(m, n);
    var after := |d| - at - 8;
    var w := d[at..at + 8];
    assert d == Zero(at) + w + Zero(after);
    var k :| 0 <= k < |m| && m[k] != n[k];
    assert w[k - at] && w != Zero(8);
    BurstLeavesTrace(w);
    FeedAppend(0, Zero(at) + w, Zero(after));
    FeedAppend(0, Zero(at), w);
    FeedZeros(0, at);
    FeedZeros(Feed(0, w), after);
    FeedXor(0, m, 0, n);
    NonzeroXor(Feed(0, m), Feed(0, n));
  }

  /** Any change inside a window of eight bits, on byte boundaries or across one, changes the CRC. */
  lemma BurstDetected(s: seq<bv8>, t: seq<bv8>, at: nat)
    requires |s| == |t| && s != t && at + 8 <= 8 * |s|
    requires forall i :: 0 <= i < 8 * |s| && !(at <= i < at + 8) ==> MessageBits(s)[i] == MessageBits(t)[i]
    ensures CrcOf(0, s) != CrcOf(0, t)
  {
    var m, n := MessageBits(s), MessageBits(t);
    if m == n {
      MessageBitsInjective(s, t);
    }
    BurstInBits(m, n, at);
    FeedMessage(0, s);
    FeedMessage(0, t);
  }

  lemma NonzeroXor(c: bv8, d: bv8)
    ensures XorByte(c, d) != 0 ==> c != d
    ensures XorByte(0, 0) == 0
  {
  }
}
