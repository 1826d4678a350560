/** The packets of src/PacketSerial.c and the frames that carry them: src/messages/packetserial.proto
    and the sending half's arithmetic, as functions of the message to send. */
module Packets {
  import opened Bytes
  import opened Powers
  import opened PbWire
  import opened PbTypes
  import opened PbEncode
  import opened Cobs
  import Crc8
  import WireForm

  const PACKET_BUFFER_SIZE: nat := 300

  const FLAG_FIRST: nat := 0
  const FLAG_CONTINUE: nat := 1
  const FLAG_LAST: nat := 2
  const FLAG_FIRSTLAST: nat := 3

  // ----- The Packet message -----

  /** Packet_fields */
  function PacketFields(c: nat): seq<Field> {
    [Field(1, Required, BytesArray, 0, 0, c + 1 + BYTES_OFFSET, 0, None),
     Field(2, Required, UVarint, 0, 0, 1, 0, None),
     Field(3, Required, UVarint, 0, 0, 1, 0, None),
     Field(4, Required, UVarint, 0, 0, 4, 0, None)]
  }

  datatype Packet = Packet(data: seq<byte>, sequenceNumber: nat, crc: nat, flag: nat)

  /** The struct a packet is encoded from. */
  function PacketMessage(p: Packet): Message {
    Message(
      [Single(false, Blob(p.data)), Single(false, Num(p.sequenceNumber)), Single(false, Num(p.crc)),
       Single(false, Num(p.flag))],
      map[])
  }

  /** What a decoded struct holds. */
  predicate IsPacket(m: Message) {
    |m.slots| == 4 && (forall i :: 0 <= i < 4 ==> m.slots[i].Single?) && m.slots[0].value.Blob?
    && (forall i :: 1 <= i < 4 ==> m.slots[i].value.Num?)
  }

  ghost predicate ValidPacket(c: nat, p: Packet) {
    |p.data| <= c && p.sequenceNumber < 256 && p.crc < 256 && p.flag < 4
  }

  lemma PacketDescriptor(c: nat)
    requires c + 1 + BYTES_OFFSET <= PB_SIZE_MAX
    ensures ValidDescriptor(PacketFields(c))
  {
    forall i | 0 <= i < 4 ensures ValidField(PacketFields(c)[i]) {}
  }

  lemma PacketInRange(c: nat, p: Packet)
    requires ValidPacket(c, p)
    ensures InRangeMessage(PacketFields(c), PacketMessage(p))
  {
    var fields, m := PacketFields(c), PacketMessage(p);
    hide Pow2;
    Pow2Large();
    assert InRangeValue(UVarint, 1, Num(p.sequenceNumber)) && InRangeValue(UVarint, 1, Num(p.crc));
    assert InRangeValue(UVarint, 4, Num(p.flag)) && InRangeValue(BytesArray, c + 1 + BYTES_OFFSET, Blob(p.data));
    hide InRangeValue;
    forall i | 0 <= i < 4 ensures InRangeSlot(fields[i], m.slots[i], m.which) {}
  }

  // ----- Frames -----

  /** The delimited encoding of a packet, as marshal writes it. */
  function PacketBytes(c: nat, p: Packet): seq<byte> {
    match EncMessage(PacketFields(c), PacketMessage(p))
    case None => []
    case Some(e) => EncString(e)
  }

  /** A frame: the encoding made zero-free, and a zero to end it. */
  function Frame(c: nat, p: Packet): seq<byte> { Enc(PacketBytes(c, p)) + [0] }

  /** The longest a packet with c bytes of data can be, encoded and delimited, and its frame. */
  function BodyMax(c: nat): nat { |EncVarint(c)| + c + 9 }

  function DelimitedMax(c: nat): nat { |EncVarint(BodyMax(c))| + BodyMax(c) }

  function FrameMax(c: nat): nat { EncodeDstBufLenMax(DelimitedMax(c)) + 1 }

  /** The buffers hold the largest frame: n is the size of the receive buffer, Packet_size + 1. */
  predicate FramesFit(c: nat, n: nat) { 1 <= c && c + 1 + BYTES_OFFSET <= PB_SIZE_MAX && FrameMax(c) <= n }

  lemma CAtLeastOne(c: nat, n: nat)
    requires FramesFit(c, n)
    ensures c >= 1 && c + 1 + BYTES_OFFSET <= PB_SIZE_MAX
  {
  }

  lemma FifteenFits()
    ensures FramesFit(15, 33)
  {
    assert EncVarint(15) == [15] && EncVarint(25) == [25];
  }

  // ----- Encoding a packet -----

  lemma FieldThen(fields: seq<Field>, m: Message, i: nat, e: seq<byte>, rest: seq<byte>)
    requires i < |fields| && i < |m.slots|
    requires EncField(fields[i], m.slots[i], m.which) == Some(e) && EncFrom(fields, m, i + 1) == Some(rest)
    ensures EncFrom(fields, m, i) == Some(e + rest)
  {
    hide EncField;
  }

  lemma NumberBytes(f: Field, n: nat, which: map<nat, nat>)
    requires f.htype.Required? && f.ltype.UVarint? && f.dataSize in {1, 4} && 1 <= f.tag < 16 && n < B64
    ensures EncField(f, Single(false, Num(n)), which) == Some([(8 * f.tag) as byte] + EncVarint(n))
  {
    hide EncVarint, EncValue, EncTag;
    WireForm.NumberForm(f.ltype, f.dataSize, n);
    assert EncField(f, Single(false, Num(n)), which) == EncTagged(f, Num(n));
    WireForm.TagForm(f, Num(n));
    WireForm.VarintFirst(8 * f.tag);
  }

  lemma StringBytes(f: Field, b: seq<byte>, which: map<nat, nat>)
    requires f.htype.Required? && f.ltype.BytesArray? && f.tag == 1 && |b| + 2 <= f.dataSize
    ensures EncField(f, Single(false, Blob(b)), which) == Some([0x0A] + (EncVarint(|b|) + b))
  {
    hide EncVarint, EncValue, EncTag;
    WireForm.StringForm(f.ltype, f.dataSize, b);
    assert EncField(f, Single(false, Blob(b)), which) == EncTagged(f, Blob(b));
    WireForm.TagForm(f, Blob(b));
    WireForm.VarintFirst(10);
  }

  /** The four fields of packetserial.proto: the data, the sequence number, the crc and the flag. */
  function FieldBytes(data: seq<byte>, number: nat, crc: nat, flag: nat): seq<byte> {
    ([0x0A] + (EncVarint(|data|) + data)) + (([0x10] + EncVarint(number)) + (([0x18] + EncVarint(crc))
      + ([0x20] + EncVarint(flag))))
  }

  lemma PacketForm(c: nat, p: Packet)
    requires ValidPacket(c, p)
    ensures
      var e := FieldBytes(p.data, p.sequenceNumber, p.crc, p.flag);
      EncMessage(PacketFields(c), PacketMessage(p)) == Some(e) && PacketBytes(c, p) == EncVarint(|e|) + e
  {
    hide EncField, EncFrom, EncVarint;
    var fields, m := PacketFields(c), PacketMessage(p);
    StringBytes(fields[0], p.data, m.which);
    NumberBytes(fields[1], p.sequenceNumber, m.which);
    NumberBytes(fields[2], p.crc, m.which);
    NumberBytes(fields[3], p.flag, m.which);
    FieldsEnd(fields, m);
    var last := [0x20 as byte] + EncVarint(p.flag);
    FieldThen(fields, m, 3, last, []);
    NoBytes(last);
    FieldThen(fields, m, 2, [0x18] + EncVarint(p.crc), last);
    FieldThen(fields, m, 1, [0x10] + EncVarint(p.sequenceNumber), ([0x18] + EncVarint(p.crc)) + last);
    FieldThen(fields, m, 0, [0x0A] + (EncVarint(|p.data|) + p.data),
      ([0x10] + EncVarint(p.sequenceNumber)) + (([0x18] + EncVarint(p.crc)) + last));
  }

  lemma ShortNumber(n: nat)
    requires n < 256
    ensures |EncVarint(n)| <= if n < 128 then 1 else 2
  {
  }

  /** A packet encodes, and its frame has bounded length. */
  lemma PacketEncodes(c: nat, p: Packet)
    requires ValidPacket(c, p)
    ensures EncMessage(PacketFields(c), PacketMessage(p)).Some?
    ensures |EncMessage(PacketFields(c), PacketMessage(p)).value| <= BodyMax(c)
    ensures |PacketBytes(c, p)| <= DelimitedMax(c) && |Frame(c, p)| <= FrameMax(c)
  {
    hide EncMessage, EncVarint, Enc, PacketBytes;
    PacketForm(c, p);
    VarintLonger(|p.data|, c);
    ShortNumber(p.sequenceNumber);
    ShortNumber(p.crc);
    ShortNumber(p.flag);
    var e := EncMessage(PacketFields(c), PacketMessage(p)).value;
    VarintLonger(|e|, BodyMax(c));
    var x := PacketBytes(c, p);
    EncodeMaxIsTight(x);
    LongerFrame(|x|, DelimitedMax(c));
  }

  lemma LongerFrame(a: nat, b: nat)
    requires a <= b
    ensures EncodeDstBufLenMax(a) <= EncodeDstBufLenMax(b)
  {
  }

  // ----- What send makes of a message -----

  /** calculate_crc */
  function Bits(s: seq<byte>): (b: seq<bv8>)
    ensures |b| == |s|
  {
    if s == [] then [] else [s[0] as bv8] + Bits(s[1..])
  }

  function CrcValue(s: seq<byte>): nat { Crc8.CrcOf(0, Bits(s)) as nat }

  /** The number of packets: the size over c, rounded up. */
  function TotalChunks(c: nat, size: nat): nat
    requires c >= 1
  {
    (size + c - 1) / c
  }

  /** The size of a packet's data: size % c for the last of several, which is 0 when c divides size. */
  function ChunkSize(c: nat, size: nat, i: nat): nat
    requires c >= 1
  {
    if TotalChunks(c, size) == 1 then size
    else if i + 1 < TotalChunks(c, size) then c
    else size % c
  }

  function ChunkFlag(c: nat, size: nat, i: nat): nat
    requires c >= 1
  {
    var total := TotalChunks(c, size);
    if i == 0 && total == 1 then FLAG_FIRSTLAST
    else if i == 0 then FLAG_FIRST
    else if i + 1 < total then FLAG_CONTINUE
    else FLAG_LAST
  }

  /** Chunks are taken from the message one after the other, and do not reach beyond it. */
  lemma ChunkFits(c: nat, size: nat, i: nat)
    requires c >= 1 && i < TotalChunks(c, size)
    ensures i * c + ChunkSize(c, size, i) <= size && ChunkSize(c, size, i) <= c
    ensures i + 1 < TotalChunks(c, size) ==> ChunkSize(c, size, i) == c
    ensures i + 1 == TotalChunks(c, size) ==>
      i * c + ChunkSize(c, size, i) == if size % c == 0 && size >= 2 * c then size - c else size
  {
    hide TotalChunks;
    var q, r := size / c, size % c;
    Chunks(c, size, q, r);
    NextProduct(i, c);
    if i + 1 < TotalChunks(c, size) {
      MulLess(i + 1, q, c);
    } else {
      NextProduct(q, c);
      if r == 0 {
        assert i == q - 1;
        if q >= 2 {
          MulLess(2, q, c);
        }
      }
    }
  }

  lemma NextProduct(i: nat, c: nat)
    ensures (i + 1) * c == i * c + c && 0 * c == 0 && 1 * c == c
  {
  }

  lemma Chunks(c: nat, size: nat, q: nat, r: nat)
    requires c >= 1 && size == q * c + r && r < c
    ensures TotalChunks(c, size) == if r == 0 then q else q + 1
  {
    assert (q + 1) * c == q * c + c && (q - 1) * c == q * c - c;
    if r == 0 {
      if q > 0 {
        ModUnique(size + c - 1, q, c - 1, c);
      } else {
        ModUnique(c - 1, 0, c - 1, c);
      }
    } else {
      ModUnique(size + c - 1, q + 1, r - 1, c);
    }
  }

  /** The i-th packet of a message. */
  function PacketAt(c: nat, msg: seq<byte>, i: nat): Packet
    requires c >= 1 && i < TotalChunks(c, |msg|)
  {
    ChunkFits(c, |msg|, i);
    var data := msg[i * c..i * c + ChunkSize(c, |msg|, i)];
    Packet(data, i % 256, CrcValue(data), ChunkFlag(c, |msg|, i))
  }

  lemma PacketAtValid(c: nat, msg: seq<byte>, i: nat)
    requires c >= 1 && i < TotalChunks(c, |msg|)
    ensures ValidPacket(c, PacketAt(c, msg, i))
  {
    hide TotalChunks, ChunkSize, CrcValue;
    ChunkFits(c, |msg|, i);
    CrcSmall(PacketAt(c, msg, i).data);
  }

  lemma CrcSmall(s: seq<byte>)
    ensures CrcValue(s) < 256
  {
  }

  /** The frames of the packets from i on. */
  function FramesFrom(c: nat, msg: seq<byte>, i: nat): seq<seq<byte>>
    requires c >= 1
    decreases TotalChunks(c, |msg|) - i
  {
    if i >= TotalChunks(c, |msg|) then [] else [Frame(c, PacketAt(c, msg, i))] + FramesFrom(c, msg, i + 1)
  }

  lemma NoChunks(c: nat, msg: seq<byte>)
    requires c >= 1
    ensures TotalChunks(c, |msg|) == 0 <==> msg == []
  {
    assert |msg| == |msg| / c * c + |msg| % c;
    Chunks(c, |msg|, |msg| / c, |msg| % c);
  }

  lemma NextFrame(c: nat, msg: seq<byte>, i: nat)
    requires c >= 1 && i < TotalChunks(c, |msg|)
    ensures FramesFrom(c, msg, i) == [Frame(c, PacketAt(c, msg, i))] + FramesFrom(c, msg, i + 1)
  {
    hide Frame, PacketAt, TotalChunks;
  }

  lemma FramesEnd(c: nat, msg: seq<byte>, i: nat)
    requires c >= 1 && i >= TotalChunks(c, |msg|)
    ensures FramesFrom(c, msg, i) == []
  {
    hide Frame, PacketAt, TotalChunks;
  }

  /** What the packets carry together: the message, without its last c bytes when c divides its
      size and there are two packets or more. */
  function Payload(c: nat, msg: seq<byte>): seq<byte>
    requires c >= 1
  {
    if |msg| % c == 0 && |msg| >= 2 * c then msg[..|msg| - c] else msg
  }
}
