/** The receiver of src/PacketSerial.c: process, packet_parser and the resets, on its two buffers.

    Reception says what a step is on an abstract state: what is held in front of the two write positions,
    the room left, and the calls of the rx handler. Each method here is proved to do that to the
    buffers and the positions. */
module Receiver {
  import opened Bytes
  import opened PbTypes
  import opened PbDecode
  import PbInit
  import PbInput
  import PbDecoder
  import Cobs
  import opened Packets
  import opened Reception

  /** strncpy into dst from position at. */
  method StrNCpy(dst: array<byte>, at: nat, src: seq<byte>)
    requires at + |src| <= dst.Length
    modifies dst
    ensures dst[at..at + |src|] == Copied(src)
    ensures forall i :: 0 <= i < dst.Length && !(at <= i < at + |src|) ==> dst[i] == old(dst[i])
  {
    var i := 0;
    while i < |src| && src[i] != 0
      invariant 0 <= i <= |src| && ZeroFree(src[..i])
      invariant forall k :: 0 <= k < dst.Length ==> dst[k] == if at <= k < at + i then src[k - at] else old(dst[k])
    {
      dst[at + i] := src[i];
      i := i + 1;
    }
    NulUnique(src, i);
    while i < |src|
      invariant NulAt(src) <= i <= |src|
      invariant forall k :: 0 <= k < dst.Length ==>
        dst[k] ==
        if at <= k < at + NulAt(src) then src[k - at] else if at <= k < at + i then 0 else old(dst[k])
    {
      dst[at + i] := 0;
      i := i + 1;
    }
  }

  /** strlen of a buffer with a zero at k or before. */
  method StrLen(a: array<byte>, ghost k: nat) returns (n: nat)
    requires k < a.Length && a[k] == 0
    ensures n == NulAt(a[..k + 1])
  {
    n := 0;
    while a[n] != 0
      invariant n <= k && ZeroFree(a[..n])
      decreases k - n
    {
      n := n + 1;
    }
    assert a[..k + 1][..n] == a[..n];
    NulUnique(a[..k + 1], n);
  }

  class Receiver {
    const link: Link
    const rxBuffer: array<byte>
    const packetBuffer: array<byte>
    var pRx: nat
    var remaining: nat
    var offset: nat
    ghost var delivered: seq<seq<byte>>
    ghost var overrun: bool

    /** No write leaves rx_buffer, and packet_buffer is zero behind what has been received. */
    ghost predicate Valid()
      reads this, packetBuffer
    {
      && rxBuffer != packetBuffer && rxBuffer.Length == link.n && packetBuffer.Length == PACKET_BUFFER_SIZE
      && pRx + remaining <= link.n && offset <= PACKET_BUFFER_SIZE
      && (forall i :: offset <= i < PACKET_BUFFER_SIZE ==> packetBuffer[i] == 0)
      && link.c + 1 + BYTES_OFFSET <= PB_SIZE_MAX
    }

    ghost function Now(): State
      requires Valid()
      reads this, rxBuffer, packetBuffer
    {
      State(rxBuffer[..pRx], remaining, packetBuffer[..offset], delivered, overrun)
    }

    /** The static initial state. */
    constructor (link: Link)
      requires link.c + 1 + BYTES_OFFSET <= PB_SIZE_MAX
      ensures Valid() && this.link == link && fresh(rxBuffer) && fresh(packetBuffer)
      ensures Now() == State([], link.n, [], [], false)
    {
      this.link := link;
      rxBuffer := new byte[link.n](_ => 0);
      packetBuffer := new byte[PACKET_BUFFER_SIZE](_ => 0);
      pRx := 0;
      remaining := link.n;
      offset := 0;
      delivered := [];
      overrun := false;
    }

    /** reset_packet_buffer */
    method ResetPacketBuffer()
      requires Valid()
      modifies this`offset, packetBuffer
      ensures Valid() && offset == 0
    {
      offset := 0;
      Clear(packetBuffer);
    }

    /** reset_rx_buffer: the room is reset, the write position is not. That is sound only between
        frames. */
    method ResetRxBuffer()
      requires Valid()
      modifies this`remaining, rxBuffer
      ensures Valid() <==> pRx == 0
      ensures remaining == link.n && pRx == old(pRx) && forall i :: 0 <= i < rxBuffer.Length ==> rxBuffer[i] == 0
    {
      remaining := link.n;
      Clear(rxBuffer);
    }

    /** packet_parser */
    method PacketParser(stream: PbInput.IStream) returns (ok: bool)
      requires Valid() && stream.Valid()
      modifies this`offset, this`delivered, this`overrun, packetBuffer, stream
      ensures Valid() && stream.Valid()
      ensures stream.state + stream.bytesLeft == old(stream.state + stream.bytesLeft)
      ensures
        var r := DecMessage(PacketFields(link.c), ZeroMessage(PacketFields(link.c)), old(stream.Rest()));
        if r.Some? && IsPacket(r.value) then
          (Now(), ok) == Accept(link, old(Now()), r.value.slots[0].value.bytes, r.value.slots[3].value.n)
        else (Now(), ok) == (old(Now()), false)
    {
      hide DecMessage, ZeroMessage, ValidDescriptor, ShapedMessage, Left;
      PacketDescriptor(link.c);
      var packet := Uninitialised(link.c);
      AnyStruct(link.c, packet, stream.Rest());
      ok, packet := PbDecoder.Decode(stream, PacketFields(link.c), packet);
      if !ok {
        return;
      }
      DecodedIsPacket(link.c, packet);
      var data := packet.slots[0].value.bytes;
      if offset + |data| > PACKET_BUFFER_SIZE {
        // The copy would leave the buffer.
        overrun := true;
        return;
      }
      Append(data);
      var flag := packet.slots[3].value.n;
      if flag == FLAG_LAST || flag == FLAG_FIRSTLAST {
        assert packetBuffer[..] == Padded(packetBuffer[..offset]);
        if link.hasHandler {
          delivered := delivered + [packetBuffer[..]];
        } else {
          ok := link.unmarshals(packetBuffer[..]);
        }
        ResetPacketBuffer();
      }
    }

    /** memcpy to packet_buffer_offset. */
    method Append(data: seq<byte>)
      requires Valid() && offset + |data| <= PACKET_BUFFER_SIZE
      modifies this`offset, packetBuffer
      ensures Valid() && packetBuffer[..offset] == old(packetBuffer[..offset]) + data
    {
      var i := 0;
      while i < |data|
        invariant 0 <= i <= |data| && offset == old(offset)
        invariant forall k :: 0 <= k < PACKET_BUFFER_SIZE ==>
          packetBuffer[k] == if offset <= k < offset + i then data[k - offset] else old(packetBuffer[k])
      {
        packetBuffer[offset + i] := data[i];
        i := i + 1;
      }
      offset := offset + |data|;
    }

    /** explicit_unmarshal of a delimited message. */
    method ExplicitUnmarshal(data: seq<byte>) returns (ok: bool)
      requires Valid()
      modifies this`offset, this`delivered, this`overrun, packetBuffer
      ensures Valid() && (Now(), ok) == Parse(link, old(Now()), data)
    {
      hide DecMessage, ZeroMessage, Accept, DelimitedEnd, Delimited;
      var parent := new PbInput.IStream(data, 0, |data|);
      assert parent.Rest() == data;
      var substream;
      ok, substream := parent.MakeStringSubstream();
      if !ok {
        return;
      }
      ok := PacketParser(substream);
      var closed := parent.CloseStringSubstream(substream);
      ok := closed && ok;
    }

    /** The second half of process, once the zero that ends a frame has been received. */
    method CompleteFrame() returns (ok: bool, ghost junk: nat -> byte)
      requires Valid() && pRx > 0 && rxBuffer[pRx - 1] == 0
      modifies this, rxBuffer, packetBuffer
      ensures Valid() && (Now(), ok) == Complete(link, old(Now()), junk)
    {
      hide Parse, Decoded, NulAt, Contents, Cobs.DecodeFrom;
      var msgSize := StrLen(rxBuffer, pRx - 1);
      ghost var body := rxBuffer[..msgSize];
      assert rxBuffer[..pRx][..msgSize] == body;
      var decoded := new byte[msgSize];
      ghost var memory := decoded[..];
      junk := Contents(memory);
      var result := Cobs.CobsDecode(decoded, msgSize, rxBuffer, msgSize);
      DecodedIs(body, memory, result.outLen, decoded[..]);
      ok := ExplicitUnmarshal(decoded[..]);
      if ok {
        ResetRxBuffer();
      }
      pRx := 0;
    }

    /** process, for a chunk with at least one byte. */
    method Process(buffer: seq<byte>) returns (ok: bool, ghost junk: nat -> byte)
      requires Valid() && buffer != []
      modifies this, rxBuffer, packetBuffer
      ensures Valid() && (Now(), ok) == Step(link, old(Now()), buffer, junk)
    {
      hide Complete, Copied, NulAt;
      junk := Contents([]);
      if |buffer| > remaining {
        return false, junk;
      }
      ghost var st := Now();
      StrNCpy(rxBuffer, pRx, buffer);
      pRx := pRx + |buffer|;
      remaining := remaining - |buffer|;
      assert rxBuffer[..pRx] == st.line + Copied(buffer);
      if buffer[|buffer| - 1] != 0 {
        return true, junk;
      }
      CopiedEnd(buffer);
      assert rxBuffer[pRx - 1] == (st.line + Copied(buffer))[pRx - 1];
      ok, junk := CompleteFrame();
    }
  }

  /** What uninitialised memory held. */
  function Contents(memory: seq<byte>): nat -> byte {
    (i: nat) => if i < |memory| then memory[i] else 0
  }

  /** memset to zero. */
  method Clear(a: array<byte>)
    modifies a
    ensures forall i :: 0 <= i < a.Length ==> a[i] == 0
  {
    var i := 0;
    while i < a.Length
      invariant 0 <= i <= a.Length
      invariant forall k :: 0 <= k < i ==> a[k] == 0
    {
      a[i] := 0;
      i := i + 1;
    }
  }

  /** A local struct, of which only its shape is known. */
  method Uninitialised(c: nat) returns (m: Message)
    ensures ShapedMessage(PacketFields(c), m)
  {
    ZeroShaped(PacketFields(c));
    m := ZeroMessage(PacketFields(c));
  }

  /** What is decoded does not depend on it. */
  lemma AnyStruct(c: nat, m: Message, s: seq<byte>)
    requires c + 1 + BYTES_OFFSET <= PB_SIZE_MAX && ShapedMessage(PacketFields(c), m)
    ensures
      var r, z := DecMessage(PacketFields(c), m, s), DecMessage(PacketFields(c), ZeroMessage(PacketFields(c)), s);
      && (r.Some? <==> z.Some?)
      && (r.Some? ==> (IsPacket(r.value) <==> IsPacket(z.value)))
      && (r.Some? && IsPacket(r.value) ==>
            forall i :: 0 <= i < 4 ==> r.value.slots[i].value == z.value.slots[i].value)
  {
    hide DecMessage, ZeroMessage, ValidDescriptor, ShapedMessage;
    var fields, zero := PacketFields(c), ZeroMessage(PacketFields(c));
    PacketDescriptor(c);
    ZeroShaped(fields);
    PbInit.DestinationIrrelevant(fields, m, zero, s);
    if DecMessage(fields, m, s).Some? {
      SamePacket(c, DecMessage(fields, m, s).value, DecMessage(fields, zero, s).value);
    }
  }

  lemma SamePacket(c: nat, a: Message, b: Message)
    requires SameMessage(PacketFields(c), a, b)
    ensures IsPacket(a) <==> IsPacket(b)
    ensures IsPacket(a) ==> forall i :: 0 <= i < 4 ==> a.slots[i].value == b.slots[i].value
  {
    forall i | 0 <= i < 4 ensures a.slots[i].Single? && b.slots[i].Single? && a.slots[i].value == b.slots[i].value {
      assert SameSlot(PacketFields(c)[i], a.slots[i], b.slots[i], a.which);
    }
  }

  lemma DecodedIsPacket(c: nat, m: Message)
    requires ShapedMessage(PacketFields(c), m)
    ensures IsPacket(m)
  {
    var fields := PacketFields(c);
    assert ShapedSlot(fields[0], m.slots[0]) && ShapedSlot(fields[1], m.slots[1]);
    assert ShapedSlot(fields[2], m.slots[2]) && ShapedSlot(fields[3], m.slots[3]);
  }

  lemma DecodedIs(body: seq<byte>, memory: seq<byte>, outLen: nat, data: seq<byte>)
    requires |memory| == |data| == |body| && outLen <= |data|
    requires data[..outLen] == Cobs.DecodeFrom(body, |body|).out
    requires forall i :: outLen <= i < |data| ==> data[i] == memory[i]
    ensures data == Decoded(body, Contents(memory))
  {
    hide Cobs.DecodeFrom, Memory, Contents;
    var out := data[..outLen];
    TailIs(memory, outLen, data);
    assert |out| == outLen && data == out + data[outLen..];
  }

  lemma TailIs(memory: seq<byte>, at: nat, data: seq<byte>)
    requires |memory| == |data| && at <= |data|
    requires forall i :: at <= i < |data| ==> data[i] == memory[i]
    ensures data[at..] == Memory(Contents(memory), at, |data| - at)
  {
    hide Memory;
    var tail := Memory(Contents(memory), at, |data| - at);
    forall i | 0 <= i < |tail| ensures tail[i] == data[at + i] {
      assert Contents(memory)(at + i) == memory[at + i];
    }
  }
}
