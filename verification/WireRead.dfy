/** Exactly what nanopb's field decoders accept, and what they read, in literal numbers. */
module WireRead {
  import opened Bytes
  import opened Powers
  import opened PbWire
  import opened PbTypes
  import opened PbDecode
  import opened WireForm

  // ----- Varints -----

  /** The sum of the groups of seven bits, the lowest first. */
  function GroupSum(x: seq<byte>): nat {
    if x == [] then 0
    else
      var last := |x| - 1;
      GroupSum(x[..last]) + x[last] as nat % 128 * Pow2(7 * last)
  }

  lemma {:induction false} GroupsAdd(x: seq<byte>, y: seq<byte>)
    ensures VarintValue(x + y) == VarintValue(x) + Pow2(7 * |x|) * VarintValue(y)
    decreases |x|
  {
    hide Pow2;
    OneBit();
    if x == [] {
      assert x + y == y;
    } else {
      assert (x + y)[1..] == x[1..] + y;
      GroupsAdd(x[1..], y);
      Pow2Add(7, 7 * (|x| - 1));
      Pow2Large();
      Regroup(128, Pow2(7 * (|x| - 1)), VarintValue(y));
    }
  }

  lemma {:induction false} ValueIsSum(x: seq<byte>)
    ensures VarintValue(x) == GroupSum(x)
    decreases |x|
  {
    hide Pow2, VarintValue;
    if x == [] {
      NoGroups();
    } else {
      var last := |x| - 1;
      assert x == x[..last] + [x[last]];
      GroupsAdd(x[..last], [x[last]]);
      OneByteValue([x[last]]);
      ValueIsSum(x[..last]);
    }
  }

  lemma NoGroups()
    ensures VarintValue([]) == 0
  {
  }

  lemma OneByteValue(x: seq<byte>)
    requires |x| == 1
    ensures VarintValue(x) == x[0] as nat % 128
  {
    assert x[1..] == [];
  }

  /** A varint ends with its first byte below 128. */
  lemma {:induction false} SpanExactly(s: seq<byte>, n: nat)
    ensures VarintSpan(s) == Some(n) <==> 1 <= n <= |s| && s[n - 1] < 128 && forall i :: 0 <= i < n - 1 ==> s[i] >= 128
    decreases |s|
  {
    if s != [] && s[0] >= 128 && n >= 1 {
      SpanExactly(s[1..], n - 1);
    }
  }

  /** pb_decode_varint takes the varint at the front of the input if it has at most ten bytes, and keeps 64 bits
      of what it stands for. */
  lemma Varint64Exactly(s: seq<byte>, v: nat, n: nat)
    ensures DecVarint64(s) == Some((v, n)) <==>
      && 1 <= n <= 10 && n <= |s| && s[n - 1] < 128 && (forall i :: 0 <= i < n - 1 ==> s[i] >= 128)
      && v == GroupSum(s[..n]) % 0x1_0000_0000_0000_0000
  {
    hide VarintSpan, VarintValue, GroupSum;
    SpanExactly(s, n);
    if VarintSpan(s).Some? {
      ValueIsSum(s[..VarintSpan(s).value]);
    }
  }

  /** From byte k of a varint on, of which n bytes are left: nothing of a fifth and last byte lies behind bit 31,
      and a later group is zero, or all ones after a number that has bit 31. Index 9 has one bit of 64. */
  predicate Fits32(s: seq<byte>, k: nat, n: nat, top: bool)
    requires n <= |s|
  {
    && (k <= 4 && k + n == 5 ==> s[4 - k] < 16)
    && forall i :: 0 <= i < n && k + i >= 5 ==>
         s[i] % 128 == 0 || (top && s[i] == if k + i < 9 then 0xFF else 0x01)
  }

  lemma FitsLater(s: seq<byte>, k: nat, n: nat, top: bool)
    requires 2 <= n <= |s|
    ensures Fits32(s, k, n, top) <==>
      (k >= 5 ==> s[0] % 128 == 0 || (top && s[0] == if k < 9 then 0xFF else 0x01)) && Fits32(s[1..], k + 1, n - 1, top)
  {
    if Fits32(s, k, n, top) {
      forall i | 0 <= i < n - 1 && k + 1 + i >= 5
        ensures s[1..][i] % 128 == 0 || (top && s[1..][i] == if k + 1 + i < 9 then 0xFF else 0x01)
      {
        assert s[1..][i] == s[i + 1];
      }
    }
  }

  /** Behind bit 31. */
  lemma {:induction false} HighBytes(s: seq<byte>, k: nat, n: nat, result: nat)
    requires VarintSpan(s) == Some(n) && 5 <= k && k + n <= 37
    ensures Varint32Loop(s, 7 * k, result).Some? <==> Fits32(s, k, n, result >= B31)
    decreases n
  {
    hide BitOr, Pow2, Fits32;
    if n == 1 {
      OneHighByte(s, k, result);
    } else {
      NextBitpos(k);
      FitsLater(s, k, n, result >= B31);
      HighBytes(s[1..], k + 1, n - 1, result);
    }
  }

  lemma OneHighByte(s: seq<byte>, k: nat, result: nat)
    requires VarintSpan(s) == Some(1) && 5 <= k <= 36
    ensures Varint32Loop(s, 7 * k, result).Some? <==> Fits32(s, k, 1, result >= B31)
  {
    hide BitOr, Pow2;
  }

  /** Bit 31 of a varint that goes on at byte k. */
  predicate Top(s: seq<byte>, k: nat, n: nat)
    requires n <= |s|
  {
    k <= 4 && k + n >= 5 && s[4 - k] % 16 >= 8
  }

  lemma {:induction false} LowBytesFit(s: seq<byte>, k: nat, n: nat, result: nat)
    requires VarintSpan(s) == Some(n) && 1 <= k <= 4 && k + n <= 37 && result < Pow2(7 * k)
    ensures Varint32Loop(s, 7 * k, result).Some? <==> Fits32(s, k, n, Top(s, k, n))
    decreases n
  {
    hide BitOr, Pow2, Varint32Loop, Fits32, Top;
    var next := LowTurn(s, k, result);
    if n == 1 {
      FitsAlone(s, k);
    } else {
      TopLater(s, k, n);
      FitsLater(s, k, n, Top(s, k, n));
      if k == 4 {
        HighBytes(s[1..], 5, n - 1, next);
      } else {
        LowBytesFit(s[1..], k + 1, n - 1, next);
      }
    }
  }

  /** One turn below bit 31. */
  lemma LowTurn(s: seq<byte>, k: nat, result: nat) returns (next: nat)
    requires s != [] && 1 <= k <= 4 && result < Pow2(7 * k)
    ensures Varint32Loop(s, 7 * k, result).Some? <==>
      if s[0] < 128 then k == 4 ==> s[0] < 16 else Varint32Loop(s[1..], 7 * (k + 1), next).Some?
    ensures if k == 4 then next >= B31 <==> s[0] % 16 >= 8 else next < Pow2(7 * (k + 1))
  {
    hide BitOr, Pow2, Varint32Loop;
    var c := s[0] as nat % 128;
    next := BitOr(result, c * Pow2(7 * k) % B32);
    LoopOne(s, k, result);
    LowNext(result, c, k);
    GroupBits(s[0]);
    if s[0] >= 128 {
      NextBitpos(k);
    }
  }

  lemma GroupBits(b: byte)
    ensures b as nat % 128 % 16 >= 8 <==> b % 16 >= 8
  {
  }

  lemma LowNext(result: nat, c: nat, k: nat)
    requires 1 <= k <= 4 && result < Pow2(7 * k) && c < 128
    ensures
      var next := BitOr(result, c * Pow2(7 * k) % B32);
      if k == 4 then next >= B31 <==> c % 16 >= 8 else next < Pow2(7 * (k + 1))
  {
    hide BitOr, Pow2;
    Pow2Monotone(7 * k, 28);
    Pow28();
    GroupValue(result, c, k);
    if k == 4 {
      TopBit(result, c);
    }
  }

  lemma TopLater(s: seq<byte>, k: nat, n: nat)
    requires 2 <= n <= |s| && 1 <= k <= 4
    ensures Top(s, k, n) == if k == 4 then s[0] % 16 >= 8 else Top(s[1..], k + 1, n - 1)
  {
  }

  lemma FitsAlone(s: seq<byte>, k: nat)
    requires s != [] && s[0] < 128 && 1 <= k <= 4
    ensures Fits32(s, k, 1, Top(s, k, 1)) <==> (k == 4 ==> s[0] < 16)
  {
  }

  lemma TopBit(result: nat, c: nat)
    requires result < Pow2(28) && c < 128
    ensures (result + c * Pow2(28)) % B32 >= B31 <==> c % 16 >= 8
  {
    hide Pow2;
    Pow28();
    var p := 0x1000_0000;
    assert result + c * p == (result + c % 16 * p) + c / 16 * B32;
    ModDrop(result + c % 16 * p, c / 16, B32);
    ModSmall(result + c % 16 * p);
  }

  /** pb_decode_varint32 takes a varint of up to 37 bytes exactly if what lies behind bit 31 is all zeros, or the
      ones of a negative number's 64-bit form; it keeps 32 bits. */
  lemma Varint32Exactly(s: seq<byte>, n: nat)
    requires 1 <= n <= |s| && n <= 37 && s[n - 1] < 128 && forall i :: 0 <= i < n - 1 ==> s[i] >= 128
    ensures DecVarint32(s).Some? <==>
      && (n == 5 ==> s[4] < 16)
      && forall i :: 5 <= i < n ==> s[i] % 128 == 0 || (s[4] % 16 >= 8 && s[i] == if i < 9 then 0xFF else 0x01)
    ensures DecVarint32(s).Some? ==> DecVarint32(s) == Some((GroupSum(s[..n]) % 0x1_0000_0000, n))
  {
    hide Varint32Loop, VarintSpan, Pow2, VarintValue, GroupSum, Fits32, Top;
    SpanExactly(s, n);
    ValueIsSum(s[..n]);
    if n > 1 {
      var first := s[0] as nat % 128;
      SpanExactly(s[1..], n - 1);
      assert Pow2(7) == 128 by { Pow2Large(); }
      LowBytesFit(s[1..], 1, n - 1, first);
      FitsFrom1(s, n);
      if DecVarint32(s).Some? {
        Value32(s, n);
      }
    } else {
      OneByteValue(s[..1]);
    }
  }

  lemma Value32(s: seq<byte>, n: nat)
    requires 2 <= n <= 37 && n <= |s| && s[0] >= 128 && VarintSpan(s[1..]) == Some(n - 1) && DecVarint32(s).Some?
    ensures DecVarint32(s) == Some((VarintValue(s[..n]) % B32, n))
  {
    hide Varint32Loop, VarintSpan, Pow2, VarintValue;
    var first := s[0] as nat % 128;
    assert Pow2(7) == 128 by { Pow2Large(); }
    Loop32Span(s[1..], 7, first);
    Loop32Value(s[1..], 1, first);
    WholeValue(s, n);
  }

  lemma WholeValue(s: seq<byte>, n: nat)
    requires 2 <= n <= |s|
    ensures VarintValue(s[..n]) == s[0] as nat % 128 + VarintValue(s[1..][..n - 1]) * 128
  {
    assert s[..n][1..] == s[1..][..n - 1];
  }

  lemma FitsFrom1(s: seq<byte>, n: nat)
    requires 2 <= n <= |s|
    ensures Fits32(s[1..], 1, n - 1, Top(s[1..], 1, n - 1)) <==>
      && (n == 5 ==> s[4] < 16)
      && forall i :: 5 <= i < n ==> s[i] % 128 == 0 || (s[4] % 16 >= 8 && s[i] == if i < 9 then 0xFF else 0x01)
  {
    var top := Top(s[1..], 1, n - 1);
    if Fits32(s[1..], 1, n - 1, top) {
      forall i | 5 <= i < n ensures s[i] % 128 == 0 || (s[4] % 16 >= 8 && s[i] == if i < 9 then 0xFF else 0x01) {
        assert s[1..][i - 1] == s[i];
      }
    }
  }

  /** k groups of zeros with more to follow. */
  function ZeroGroups(k: nat): (x: seq<byte>)
    ensures |x| == k && forall i :: 0 <= i < k ==> x[i] == 0x80
  {
    seq(k, _ => 0x80)
  }

  lemma {:induction false} GroupsPassed(k: nat, bitpos: nat, result: nat, rest: seq<byte>)
    requires bitpos < 256
    ensures
      var r := Varint32Loop(rest, (bitpos + 7 * k) % 256, result);
      Varint32Loop(ZeroGroups(k) + rest, bitpos, result) ==
        if r.None? then None else Some((r.value.0, r.value.1 + k))
    decreases k
  {
    hide Varint32Loop;
    if k == 0 {
      assert ZeroGroups(0) + rest == rest;
    } else {
      var s := ZeroGroups(k) + rest;
      assert s[1..] == ZeroGroups(k - 1) + rest;
      ZeroPassed(s, bitpos, result);
      GroupsPassed(k - 1, (bitpos + 7) % 256, result, rest);
      PositionLater(bitpos, k);
    }
  }

  lemma ZeroPassed(s: seq<byte>, bitpos: nat, result: nat)
    requires s != [] && s[0] == 0x80
    ensures
      var r := Varint32Loop(s[1..], (bitpos + 7) % 256, result);
      Varint32Loop(s, bitpos, result) == if r.None? then None else Some((r.value.0, r.value.1 + 1))
  {
    hide Pow2;
    var p := Pow2(bitpos);
    assert 0 * p % B32 == 0 && BitOr(result, 0) == result;
  }

  lemma PositionLater(bitpos: nat, k: nat)
    requires k > 0
    ensures ((bitpos + 7) % 256 + 7 * (k - 1)) % 256 == (bitpos + 7 * k) % 256
  {
  }

  /** The bit position is kept in eight bits: behind 37 groups of zeros it is 3 again, and the one there counts
      as 8. */
  lemma PositionWraps()
    ensures DecVarint32(ZeroGroups(37) + [1]) == Some((8, 38))
  {
    hide Varint32Loop, ZeroGroups;
    var s := ZeroGroups(37) + [1];
    assert s[1..] == ZeroGroups(36) + [1];
    GroupsPassed(36, 7, 0, [1]);
    LastOne();
  }

  lemma LastOne()
    ensures Varint32Loop([1], 3, 0) == Some((8, 1))
  {
    assert Pow2(3) == 8;
  }

  /** Without a last byte there is no number. */
  lemma NoLastByte(s: seq<byte>)
    requires forall i :: 0 <= i < |s| ==> s[i] >= 128
    ensures DecVarint32(s).None? && DecVarint64(s).None?
  {
    hide Varint32Loop, VarintSpan;
    if VarintSpan(s).Some? {
      SpanExactly(s, VarintSpan(s).value);
    }
    if DecVarint32(s).Some? {
      Loop32Span(s[1..], 7, s[0] as nat % 128);
      SpanExactly(s[1..], VarintSpan(s[1..]).value);
    }
  }

  // ----- Numbers -----

  /** The number a 64-bit varint means in a field of this type: as it is, in zigzag, or in two's complement, of
      which a field of four bytes or fewer keeps 32 bits before its range is checked. */
  function Meant(lt: LType, dataSize: nat, v: nat): int {
    if lt.UVarint? then v
    else if lt.SVarint? then (if v % 2 == 0 then v / 2 else -((v + 1) / 2))
    else if dataSize == 8 then (if v < 0x8000_0000_0000_0000 then v else v - 0x1_0000_0000_0000_0000)
    else
      var w := v % 0x1_0000_0000;
      if w < 0x8000_0000 then w else w - 0x1_0000_0000
  }

  /** What a C integer of this many bytes holds. */
  predicate InCType(signed: bool, dataSize: nat, n: int) {
    if signed then
      || (dataSize == 1 && -0x80 <= n <= 0x7F)
      || (dataSize == 2 && -0x8000 <= n <= 0x7FFF)
      || (dataSize == 4 && -0x8000_0000 <= n <= 0x7FFF_FFFF)
      || (dataSize == 8 && -0x8000_0000_0000_0000 <= n <= 0x7FFF_FFFF_FFFF_FFFF)
    else
      0 <= n <=
      if dataSize == 1 then 0xFF
      else if dataSize == 2 then 0xFFFF
      else if dataSize == 4 then 0xFFFF_FFFF
      else 0xFFFF_FFFF_FFFF_FFFF
  }

  lemma Ranges(signed: bool, dataSize: nat, n: int)
    requires dataSize in {1, 2, 4, 8}
    ensures InCType(true, dataSize, n) <==> FitsSigned(n, 8 * dataSize)
    ensures InCType(false, dataSize, n) <==> 0 <= n < Pow2(8 * dataSize)
  {
    hide Pow2;
    Pow2Large();
    HalfWord();
  }

  lemma HalfWord()
    ensures Pow2(15) == 0x8000
  {
    Pow2Large();
    assert Pow2(16) == 2 * Pow2(15);
  }

  /** A varint is accepted exactly if the number meant fits the C type of the field, and that number is stored:
      one that does not fit is an error, never cut off. */
  lemma VarintRead(lt: LType, dataSize: nat, s: seq<byte>)
    requires (lt.Varint? || lt.UVarint? || lt.SVarint?) && dataSize in {1, 2, 4, 8}
    ensures DecNum(lt, dataSize, s).Some? <==>
      DecVarint64(s).Some? && InCType(!lt.UVarint?, dataSize, Meant(lt, dataSize, DecVarint64(s).value.0))
    ensures DecNum(lt, dataSize, s).Some? ==>
      DecNum(lt, dataSize, s).value == (Meant(lt, dataSize, DecVarint64(s).value.0), DecVarint64(s).value.1)
  {
    hide Pow2, FitsSigned, InCType, DecVarint64;
    if DecVarint64(s).Some? {
      var v := DecVarint64(s).value.0;
      Ranges(!lt.UVarint?, dataSize, Meant(lt, dataSize, v));
      MeantIs(lt, dataSize, v);
    }
  }

  lemma MeantIs(lt: LType, dataSize: nat, v: nat)
    requires v < B64
    ensures lt.SVarint? ==> UnZigZag(v) == Meant(lt, dataSize, v)
    ensures lt.Varint? ==> (if dataSize == 8 then ToSigned(v, 64) else ToSigned(v, 32)) == Meant(lt, dataSize, v)
  {
    hide Pow2;
    Pow2Large();
    if v >= B32 {
      ModSmall(v % B32);
    }
  }

  /** The fixed-width numbers need their bytes, whatever the field's size. */
  lemma FixedRead(lt: LType, dataSize: nat, s: seq<byte>)
    requires lt.Fixed32? || lt.Fixed64?
    ensures
      var k := if lt.Fixed32? then 4 else 8;
      && (DecNum(lt, dataSize, s).Some? <==> |s| >= k)
      && (DecNum(lt, dataSize, s).Some? ==>
            var (n, taken) := DecNum(lt, dataSize, s).value;
            0 <= n < (if lt.Fixed32? then 0x1_0000_0000 else 0x1_0000_0000_0000_0000) && taken == k
            && LowBytes(n, k) == s[..k])
  {
    hide FixedValue, LowBytes, Pow2;
    var k := if lt.Fixed32? then 4 else 8;
    if |s| >= k {
      Pow2Large();
      FixedBack(s[..k]);
      FixedForm(FixedValue(s[..k]), k);
    }
  }

  lemma {:induction false} FixedBack(x: seq<byte>)
    ensures FixedValue(x) < Pow2(8 * |x|) && EncFixed(FixedValue(x), |x|) == x
    decreases |x|
  {
    hide Pow2;
    OneBit();
    if x != [] {
      FixedBack(x[1..]);
      Pow2Add(8, 8 * (|x| - 1));
      Pow2Large();
    }
  }

  /** 300 in a uint32 field of one byte, as the sequence number of a packet is: refused. */
  lemma TooLargeRefused()
    ensures EncVarint(300) == [0xAC, 0x02] && DecVarint64([0xAC, 0x02]) == Some((300, 2))
    ensures DecNum(UVarint, 1, [0xAC, 0x02]) == None
  {
    hide DecNum, DecVarint64, GroupSum;
    VarintFirst(300);
    VarintFirst(2);
    Varint64RoundTrip(300, []);
    NoBytes(EncVarint(300));
    VarintRead(UVarint, 1, [0xAC, 0x02]);
  }

  // ----- Tags and lengths -----

  /** The low three bits of a tag are the wire type, the rest is the number; zero ends the message. */
  lemma TagRead(s: seq<byte>)
    ensures DecTag(s).BadTag? <==> DecVarint32(s).None?
    ensures DecTag(s).EndTag? <==> DecVarint32(s).Some? && DecVarint32(s).value.0 == 0
    ensures DecTag(s).Tag? ==>
      && DecVarint32(s) == Some((8 * DecTag(s).tag + DecTag(s).wire, DecTag(s).size)) && DecTag(s).wire < 8
  {
    hide DecVarint32;
  }

  /** A value whose length comes in front of it must end within the input. */
  lemma DelimitedRead(s: seq<byte>)
    ensures DelimitedEnd(s).Some? <==>
      DecVarint32(s).Some? && DecVarint32(s).value.0 + DecVarint32(s).value.1 <= |s|
    ensures DelimitedEnd(s).Some? ==>
      var (size, n) := DecVarint32(s).value;
      DelimitedEnd(s).value == n + size && Delimited(s) == s[n..n + size]
  {
    hide DecVarint32;
  }

  /** What skipping an unknown field takes: a varint for wire type 0, eight bytes for 1, a length and as many
      bytes for 2, four bytes for 5. Groups and the wire types that do not exist are refused. */
  lemma SkipRead(s: seq<byte>, wire: nat, n: nat)
    ensures SkipField(s, wire) == Some(n) <==>
      || (wire == 0 && 1 <= n <= |s| && s[n - 1] < 128 && forall i :: 0 <= i < n - 1 ==> s[i] >= 128)
      || (wire == 1 && n == 8 <= |s|)
      || (wire == 2 && DelimitedEnd(s) == Some(n))
      || (wire == 5 && n == 4 <= |s|)
  {
    hide VarintSpan, DelimitedEnd;
    SpanExactly(s, n);
  }

  // ----- Byte strings -----

  /** The byte string fields take a string exactly if all of it is there and it fits the array: the bytes with
      their two-byte length, or with a terminator, or exactly. An empty fixed-length string stands for zeros. */
  lemma StringRead(lt: LType, dataSize: nat, s: seq<byte>)
    requires (lt.BytesArray? || lt.CharArray? || lt.FixedLengthBytes?) && dataSize <= 65535
    ensures DecBlob(lt, dataSize, s).Some? <==>
      && DelimitedEnd(s).Some?
      && match lt
         case BytesArray => |Delimited(s)| + 2 <= dataSize
         case CharArray => |Delimited(s)| + 1 <= dataSize
         case _ => |Delimited(s)| == dataSize || Delimited(s) == []
    ensures DecBlob(lt, dataSize, s).Some? ==>
      var (b, n) := DecBlob(lt, dataSize, s).value;
      && n == DelimitedEnd(s).value
      && match lt
         case BytesArray => b == Delimited(s)
         case CharArray => IsCString(b, Delimited(s))
         case _ => b == if Delimited(s) == [] then Zeros(dataSize) else Delimited(s)
  {
    hide DecVarint32, CString, IsCString;
    DelimitedRead(s);
    if lt.CharArray? && DecBlob(lt, dataSize, s).Some? {
      var d := Delimited(s);
      var k := Terminator(d, |d|);
      StringIs(d, k);
    }
  }

  /** b is what d holds before its first zero. */
  predicate IsCString(b: seq<byte>, d: seq<byte>) {
    |b| <= |d| && b == d[..|b|] && ZeroFree(b) && (|b| < |d| ==> d[|b|] == 0)
  }

  lemma StringIs(d: seq<byte>, k: nat)
    requires k <= |d| && ZeroFree(d[..k]) && (k == |d| || d[k] == 0)
    ensures IsCString(d[..k], d)
  {
  }
}
