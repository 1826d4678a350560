/** The sending half of src/PacketSerial.c.

    A message is cut into chunks, each chunk becomes a packet, and each packet a frame that is handed to
    the tx handler. */
module PacketSerial {
  import opened Bytes
  import PbWire
  import opened PbTypes
  import opened PbEncode
  import opened Cobs
  import opened Packets
  import ProtoBuff

  // ----- Sending -----

  method CalculateCrc(buffer: seq<byte>) returns (crc: nat)
    ensures crc == CrcValue(buffer)
  {
    hide Crc8.CrcOf, Crc8.CrcByte;
    var crc8: bv8 := 0;
    assert buffer[0..] == buffer;
    var i := 0;
    while i < |buffer|
      invariant 0 <= i <= |buffer|
      invariant Crc8.CrcOf(crc8, Bits(buffer[i..])) == Crc8.CrcOf(0, Bits(buffer))
    {
      assert buffer[i..][1..] == buffer[i + 1..];
      CrcNext(crc8, buffer[i..]);
      crc8 := Crc8.Crc8(crc8, buffer[i] as bv8);
      i := i + 1;
    }
    CrcDone(crc8);
    crc := crc8 as nat;
  }

  lemma CrcNext(crc: bv8, s: seq<byte>)
    requires s != []
    ensures Crc8.CrcOf(crc, Bits(s)) == Crc8.CrcOf(Crc8.CrcByte(crc, s[0] as bv8), Bits(s[1..]))
  {
    hide Crc8.CrcByte;
    assert Bits(s)[1..] == Bits(s[1..]);
  }

  lemma CrcDone(crc: bv8)
    ensures Crc8.CrcOf(crc, Bits([])) == crc
  {
  }

  /** build_packet */
  method BuildPacket(buffer: seq<byte>, sequenceNumber: nat, flag: nat) returns (p: Packet)
    ensures p == Packet(buffer, sequenceNumber, CrcValue(buffer), flag)
  {
    var crc := CalculateCrc(buffer);
    p := Packet(buffer, sequenceNumber, crc, flag);
  }

  /** One packet of send: its frame, made in buffers of Packet_size and Packet_size + 1 bytes. */
  method EncodeFrame(c: nat, n: nat, p: Packet) returns (encoded: array<byte>, size: nat)
    requires FramesFit(c, n) && ValidPacket(c, p)
    ensures fresh(encoded) && size <= encoded.Length && encoded[..size] == Frame(c, p)
  {
    hide FramesFit, Enc, EncMessage, InRangeMessage, TypedMessage, ValidDescriptor, EncString;
    var fields, m := PacketFields(c), PacketMessage(p);
    PacketFits(c, n, p);
    PacketDescriptor(c);
    PacketInRange(c, p);
    InRangeIsTyped(fields, m);
    var unencoded := new byte[n - 1](_ => 0);
    encoded := new byte[n](_ => 0);
    var msgSize := ProtoBuff.Marshal(fields, m, unencoded, n - 1, true);
    var result, _ := CobsEncode(encoded, n, unencoded, msgSize);
    ghost var x := PacketBytes(c, p);
    assert unencoded[..msgSize] == x;
    assert encoded[..result.outLen] == Enc(x);
    size := result.outLen + 1;
    encoded[size - 1] := 0;
    assert encoded[..size] == encoded[..size - 1] + [0];
  }

  lemma PacketFits(c: nat, n: nat, p: Packet)
    requires FramesFit(c, n) && ValidPacket(c, p)
    ensures n >= 1 && c + 1 + BYTES_OFFSET <= PB_SIZE_MAX
    ensures EncMessage(PacketFields(c), PacketMessage(p)).Some?
      && Countable(EncMessage(PacketFields(c), PacketMessage(p)))
    ensures |PacketBytes(c, p)| <= n - 1 && |Enc(PacketBytes(c, p))| + 1 <= n
  {
    hide Enc, EncMessage, PbWire.EncVarint;
    PacketEncodes(c, p);
    PbWire.VarintShort(c);
    EncSize([], PacketBytes(c, p));
    assert [] + PacketBytes(c, p) == PacketBytes(c, p);
  }

  /** The flag and the size of the i-th packet's data. */
  method ChooseChunk(c: nat, size: nat, i: nat, total: nat) returns (flag: nat, chunk: nat)
    requires c >= 1 && total == TotalChunks(c, size) && i < total
    ensures flag == ChunkFlag(c, size, i) && chunk == ChunkSize(c, size, i)
  {
    if i == 0 && total == 1 {
      flag := FLAG_FIRSTLAST;
      chunk := size;
    } else if i == 0 && total > 1 {
      flag := FLAG_FIRST;
      chunk := c;
    } else if i > 0 && i < total - 1 {
      flag := FLAG_CONTINUE;
      chunk := c;
    } else {
      flag := FLAG_LAST;
      chunk := size % c;
    }
  }

  /** The handler's first n answers are all true. */
  ghost predicate AllAccepted(answer: nat -> bool, n: nat) {
    forall i: nat :: i < n ==> answer(i)
  }

  lemma AcceptedMore(answer: nat -> bool, n: nat)
    ensures AllAccepted(answer, n + 1) <==> AllAccepted(answer, n) && answer(n)
  {
  }

  lemma AcceptedEach(answer: nat -> bool, n: nat)
    ensures AllAccepted(answer, n) <==> forall i: nat :: i < n ==> answer(i)
  {
  }

  lemma NoneRefused(answer: nat -> bool)
    ensures AllAccepted(answer, 0)
  {
  }

  /** send, with the calls of the tx handler as its output. Without a handler nothing is sent; answer(i)
      is what the handler returns the i-th time, whatever it keeps and does. */
  method Send(c: nat, n: nat, buffer: seq<byte>, hasTxHandler: bool, answer: nat -> bool)
    returns (status: bool, sent: seq<seq<byte>>)
    requires FramesFit(c, n)
    ensures sent == if hasTxHandler then FramesFrom(c, buffer, 0) else []
    ensures status <==> if hasTxHandler then (forall i: nat :: i < |sent| ==> answer(i)) else buffer == []
  {
    hide AllAccepted, ChunkFlag, ChunkSize, FramesFit, Frame, TotalChunks, CrcValue, FramesFrom;
    CAtLeastOne(c, n);
    var total := TotalChunks(c, |buffer|);
    ghost var all := FramesFrom(c, buffer, 0);
    NoChunks(c, buffer);
    NoneRefused(answer);
    status := true;
    sent := [];
    var offset, i := 0, 0;
    while i < total
      invariant 0 <= i <= total
      invariant i < total ==> offset == i * c
      invariant all == sent + FramesFrom(c, buffer, i)
      invariant hasTxHandler || i == 0
      invariant |sent| == i && (status <==> AllAccepted(answer, i))
    {
      var flag, size := ChooseChunk(c, |buffer|, i, total);
      ChunkFits(c, |buffer|, i);
      var packet := BuildPacket(buffer[offset..offset + size], i % 256, flag);
      assert packet == PacketAt(c, buffer, i);
      PacketAtValid(c, buffer, i);
      NextFrame(c, buffer, i);
      var encoded, encodedSize := EncodeFrame(c, n, packet);
      if !hasTxHandler {
        return false, [];
      }
      var frame := encoded[..encodedSize];
      status := status && answer(i);
      AcceptedMore(answer, i);
      Assoc(sent, [frame], FramesFrom(c, buffer, i + 1));
      sent := sent + [frame];
      offset := offset + size;
      NextProduct(i, c);
      i := i + 1;
    }
    FramesEnd(c, buffer, i);
    NoBytes(sent);
    AcceptedEach(answer, i);
  }
}
