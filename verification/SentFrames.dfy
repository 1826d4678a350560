/** What the frames send (src/PacketSerial.c) hands to the tx handler carry, byte by byte. */
module SentFrames {
  import opened Bytes
  import Powers
  import opened PbWire
  import opened PbTypes
  import opened PbEncode
  import opened PbDecode
  import Cobs
  import Crc8
  import opened Packets
  import EndToEnd
  import Limits
  import WireForm

  // ----- The crc of a packet -----

  /** The k low bits of a number, the highest first. */
  function LowBits(n: nat, k: nat): (p: Crc8.Poly)
    ensures |p| == k
  {
    if k == 0 then [] else LowBits(n / 2, k - 1) + [n % 2 == 1]
  }

  /** The bits of a byte string, as the coefficients of a polynomial over GF(2), the first byte highest. */
  function DataBits(s: seq<byte>): (p: Crc8.Poly)
    ensures |p| == 8 * |s|
  {
    if s == [] then [] else DataBits(s[..|s| - 1]) + LowBits(s[|s| - 1] as nat, 8)
  }

  /** n is the remainder of the data times x^8 modulo x^8 + x^2 + x + 1. */
  ghost predicate IsCrc(s: seq<byte>, n: nat) {
    n < 256 && Crc8.IsRemainder(DataBits(s) + Crc8.Zero(8), LowBits(n, 8))
  }

  function ShiftedBits(d: bv8, k: nat): (p: Crc8.Poly)
    ensures |p| == k
  {
    if k == 0 then [] else ShiftedBits(d >> 1, k - 1) + [d & 1 != 0]
  }

  lemma Halved(d: bv8)
    ensures (d >> 1) as nat == d as nat / 2 && (d as nat % 2 == 1 <==> d & 1 != 0)
  {
  }

  lemma HalfOf(e: bv8, b: bool)
    requires e < 128
    ensures ((e << 1) | (if b then 1 else 0)) >> 1 == e
    ensures ((e << 1) | (if b then 1 else 0)) & 1 == if b then 1 else 0
  {
  }

  lemma SmallBits(e: bv8)
    requires e as nat < 128
    ensures e < 128
  {
  }

  lemma Doubled(e: bv8, b: bool)
    requires e as nat < 128
    ensures ((e << 1) | (if b then 1 else 0)) as nat == 2 * (e as nat) + if b then 1 else 0
  {
    SmallBits(e);
    HalfOf(e, b);
    Halved((e << 1) | (if b then 1 else 0));
  }

  lemma {:induction false} SomeBits(n: nat) returns (d: bv8)
    requires n < 256
    ensures d as nat == n
    decreases n
  {
    if n == 0 {
      d := 0;
    } else {
      var e := SomeBits(n / 2);
      Doubled(e, n % 2 == 1);
      d := (e << 1) | (if n % 2 == 1 then 1 else 0);
    }
  }

  lemma SameNumber(d: bv8, n: nat)
    requires d as nat == n
    ensures n < 256 && n as bv8 == d
  {
  }

  lemma AsBits(n: nat)
    requires n < 256
    ensures (n as bv8) as nat == n
  {
    var d := SomeBits(n);
    SameNumber(d, n);
  }

  lemma {:induction false} ShiftedAgree(d: bv8, k: nat)
    ensures ShiftedBits(d, k) == LowBits(d as nat, k)
    decreases k
  {
    if k > 0 {
      Halved(d);
      ShiftedAgree(d >> 1, k - 1);
    }
  }

  function Shift(d: bv8, j: nat): bv8 { if j == 0 then d else Shift(d, j - 1) >> 1 }

  function BitAt(d: bv8, j: nat): bool { Shift(d, j) & 1 != 0 }

  lemma {:induction false} ShiftFirst(d: bv8, j: nat)
    ensures Shift(d >> 1, j) == Shift(d, j + 1)
    decreases j
  {
    if j > 0 {
      ShiftFirst(d, j - 1);
    }
  }

  lemma {:induction false} ShiftedBit(d: bv8, k: nat, i: nat)
    requires i < k
    ensures ShiftedBits(d, k)[i] == BitAt(d, k - 1 - i)
    decreases k
  {
    if i < k - 1 {
      ShiftedBit(d >> 1, k - 1, i);
      ShiftFirst(d, k - 2 - i);
    }
  }

  lemma NextShift(d: bv8, j: nat)
    ensures Shift(d, 0) == d && Shift(d, j + 1) == Shift(d, j) >> 1
  {
  }

  lemma BitsOfAt(d: bv8)
    ensures
      var b := Crc8.BitsOf(d);
      && b[0] == BitAt(d, 7) && b[1] == BitAt(d, 6) && b[2] == BitAt(d, 5) && b[3] == BitAt(d, 4)
      && b[4] == BitAt(d, 3) && b[5] == BitAt(d, 2) && b[6] == BitAt(d, 1) && b[7] == BitAt(d, 0)
  {
    hide Shift;
    NextShift(d, 0);
    NextShift(d, 1);
    NextShift(d, 2);
    NextShift(d, 3);
    NextShift(d, 4);
    NextShift(d, 5);
    NextShift(d, 6);
  }

  lemma BitsAgree(d: bv8)
    ensures Crc8.BitsOf(d) == LowBits(d as nat, 8)
  {
    hide LowBits, ShiftedBits, BitAt, Crc8.BitsOf;
    ShiftedAgree(d, 8);
    BitsOfAt(d);
    forall i | 0 <= i < 8 ensures Crc8.BitsOf(d)[i] == ShiftedBits(d, 8)[i] {
      ShiftedBit(d, 8, i);
    }
  }

  lemma {:induction false} BitsLast(s: seq<byte>, b: byte)
    ensures Bits(s + [b]) == Bits(s) + [b as bv8]
    decreases |s|
  {
    if s == [] {
      assert [b][1..] == [];
    } else {
      assert (s + [b])[1..] == s[1..] + [b];
      BitsLast(s[1..], b);
    }
  }

  lemma {:induction false} MessageBitsLast(m: seq<bv8>, d: bv8)
    ensures Crc8.MessageBits(m + [d]) == Crc8.MessageBits(m) + Crc8.BitsOf(d)
    decreases |m|
  {
    hide Crc8.BitsOf;
    if m == [] {
      assert [d][1..] == [];
    } else {
      assert (m + [d])[1..] == m[1..] + [d];
      MessageBitsLast(m[1..], d);
      Assoc(Crc8.BitsOf(m[0]), Crc8.MessageBits(m[1..]), Crc8.BitsOf(d));
    }
  }

  lemma {:induction false} DataBitsAgree(s: seq<byte>)
    ensures Crc8.MessageBits(Bits(s)) == DataBits(s)
    decreases |s|
  {
    hide Crc8.BitsOf, LowBits;
    if s != [] {
      var front, last := s[..|s| - 1], s[|s| - 1];
      assert s == front + [last];
      DataBitsAgree(front);
      BitsLast(front, last);
      MessageBitsLast(Bits(front), last as bv8);
      BitsAgree(last as bv8);
      AsBits(last as nat);
    }
  }

  /** calculate_crc: the remainder, and nothing else is. */
  lemma CrcExactly(s: seq<byte>, n: nat)
    ensures IsCrc(s, n) <==> n == CrcValue(s)
  {
    hide Powers.Pow2, Crc8.IsRemainder, Crc8.CrcOf, Crc8.BitsOf, LowBits, DataBits;
    var crc := Crc8.CrcOf(0, Bits(s));
    DataBitsAgree(s);
    if n < 256 {
      Crc8.CrcIsRemainder(Bits(s), LowBits(n, 8));
      BitsAgree(crc);
      Pow2Large();
      SameBits(n, crc as nat, 8);
    }
  }

  lemma {:induction false} SameBits(a: nat, b: nat, k: nat)
    requires a < Powers.Pow2(k) && b < Powers.Pow2(k)
    ensures LowBits(a, k) == LowBits(b, k) <==> a == b
    decreases k
  {
    if k > 0 && LowBits(a, k) == LowBits(b, k) {
      assert LowBits(a, k)[..k - 1] == LowBits(a / 2, k - 1) && LowBits(b, k)[..k - 1] == LowBits(b / 2, k - 1);
      assert LowBits(a, k)[k - 1] == (a % 2 == 1) && LowBits(b, k)[k - 1] == (b % 2 == 1);
      SameBits(a / 2, b / 2, k - 1);
    }
  }

  // ----- The frames of a message -----

  /** Where the i-th of total chunks ends: a last chunk of several has as many bytes as the size modulo c. */
  function ChunkEnd(c: nat, size: nat, i: nat, total: nat): nat
    requires c >= 1
  {
    if i + 1 < total then (i + 1) * c else if total == 1 then size else i * c + size % c
  }

  /** The i-th chunk of a message. */
  predicate IsChunk(c: nat, msg: seq<byte>, i: nat, total: nat, data: seq<byte>)
    requires c >= 1
  {
    var at, end := i * c, ChunkEnd(c, |msg|, i, total);
    0 <= at <= end <= |msg| && data == msg[at..end]
  }

  lemma ChunkIs(c: nat, msg: seq<byte>, i: nat, total: nat)
    requires c >= 1 && total == TotalChunks(c, |msg|) && i < total
    ensures
      var p := PacketAt(c, msg, i);
      && IsChunk(c, msg, i, total, p.data)
      && p.sequenceNumber == i % 256 && p.crc == CrcValue(p.data)
      && p.flag == if total == 1 then 3 else if i == 0 then 0 else if i + 1 < total then 1 else 2
  {
    hide CrcValue, TotalChunks;
    ChunkFits(c, |msg|, i);
    NextProduct(i, c);
  }

  lemma {:induction false} FrameAt(c: nat, msg: seq<byte>, i: nat, j: nat)
    requires c >= 1 && i <= j < TotalChunks(c, |msg|)
    ensures |FramesFrom(c, msg, i)| == TotalChunks(c, |msg|) - i
    ensures FramesFrom(c, msg, i)[j - i] == Frame(c, PacketAt(c, msg, j))
    decreases TotalChunks(c, |msg|) - i
  {
    hide TotalChunks, Frame, PacketAt;
    NextFrame(c, msg, i);
    if i + 1 < TotalChunks(c, |msg|) {
      FrameAt(c, msg, i + 1, if j == i then i + 1 else j);
    } else {
      FramesEnd(c, msg, i + 1);
    }
  }

  /** The i-th frame of a message, of as many as the size over c rounded up: a zero-free body and a zero. Undoing
      COBS on the body gives, with its length in front, the packet with the i-th chunk of the message, i modulo
      256 as its sequence number, the remainder of that chunk as its crc, and a flag that tells the first, the last
      and an only packet; and pb_decode reads these four from it. */
  lemma FrameCarries(c: nat, n: nat, msg: seq<byte>, i: nat, total: nat, dest: Message)
    returns (data: seq<byte>, crc: nat)
    requires c >= 1 && FramesFit(c, n) && total == (|msg| + c - 1) / c && i < total
    requires ShapedMessage(PacketFields(c), dest)
    ensures IsChunk(c, msg, i, total, data) && IsCrc(data, crc)
    ensures |FramesFrom(c, msg, 0)| == total && 0 < |FramesFrom(c, msg, 0)[i]| <= n
    ensures
      var flag := if total == 1 then 3 else if i == 0 then 0 else if i + 1 < total then 1 else 2;
      Carries(c, FramesFrom(c, msg, 0)[i], FieldBytes(data, i % 256, crc, flag), dest,
        [Blob(data), Num(i % 256), Num(crc), Num(flag)])
  {
    hide CrcValue, PacketAt, FramesFrom, FramesFit, Frame, ShapedMessage, FieldBytes, Carries, IsChunk, IsCrc;
    CAtLeastOne(c, n);
    assert total == TotalChunks(c, |msg|);
    hide TotalChunks;
    var p := PacketAt(c, msg, i);
    ChunkIs(c, msg, i, total);
    FrameAt(c, msg, 0, i);
    PacketAtValid(c, msg, i);
    data, crc := p.data, p.crc;
    CrcExactly(data, crc);
    EndToEnd.FrameFits(c, n, p);
    FrameNonempty(c, p);
    PacketCarried(c, n, p, dest);
  }

  lemma FrameNonempty(c: nat, p: Packet)
    ensures Frame(c, p) != []
  {
    hide Cobs.Enc, PacketBytes;
  }

  /** A frame is the COBS encoding of a delimited message e and a zero, and e decodes to these values. */
  ghost predicate Carries(c: nat, frame: seq<byte>, e: seq<byte>, dest: Message, values: seq<Value>) {
    && frame != [] && frame[|frame| - 1] == 0 && ZeroFree(frame[..|frame| - 1])
    && Cobs.DecodeFrom(frame[..|frame| - 1], |frame| - 1) == Cobs.Decoding(EncVarint(|e|) + e, {})
    && var r := DecMessage(PacketFields(c), dest, e);
       && r.Some? && |r.value.slots| == |values|
       && forall k :: 0 <= k < |values| ==> r.value.slots[k].Single? && r.value.slots[k].value == values[k]
  }

  lemma PacketCarried(c: nat, n: nat, p: Packet, dest: Message)
    requires FramesFit(c, n) && ValidPacket(c, p) && ShapedMessage(PacketFields(c), dest)
    ensures Carries(c, Frame(c, p), FieldBytes(p.data, p.sequenceNumber, p.crc, p.flag), dest,
      [Blob(p.data), Num(p.sequenceNumber), Num(p.crc), Num(p.flag)])
  {
    hide Cobs.Enc, Cobs.DecodeFrom, EncVarint, FieldBytes, DecMessage, ShapedMessage, FramesFit, EncMessage;
    var x := PacketBytes(c, p);
    var e := FieldBytes(p.data, p.sequenceNumber, p.crc, p.flag);
    CAtLeastOne(c, n);
    PacketForm(c, p);
    Cobs.EncRoundTrip(x);
    EndToEnd.EncLonger(x);
    Cobs.RoundTrip(x, |Cobs.Enc(x)|);
    var frame := Frame(c, p);
    assert frame[..|frame| - 1] == Cobs.Enc(x);
    EndToEnd.BodySmall(c);
    EndToEnd.PacketDecodes(c, p, dest);
  }
}
