/** Where the promises of src/PacketSerial.c end. */
module Limits {
  import opened Bytes
  import opened PbWire
  import opened PbTypes
  import PbCommon
  import opened PbDecode
  import opened Cobs
  import opened Packets
  import opened Reception
  import opened EndToEnd

  // An overrun of the reassembly buffer, a receiver that runs out of room for good, and a packet completed by
  // memory that was never written.

  // ----- The reassembly buffer -----

  lemma {:induction false} PacketsOverrun(link: Link, st: State, msg: seq<byte>, i: nat)
    requires link.c >= 1 && i < TotalChunks(link.c, |msg|) && !st.overrun
    ensures
      AcceptAll(link, st, PacketsBetween(link.c, msg, i, TotalChunks(link.c, |msg|))).overrun <==>
      |st.packet| + |Payload(link.c, msg)| > PACKET_BUFFER_SIZE + i * link.c
    decreases TotalChunks(link.c, |msg|) - i
  {
    hide TotalChunks, PacketAt, Payload, ChunkFlag, Padded;
    var c, total, p := link.c, TotalChunks(link.c, |msg|), PacketAt(link.c, msg, i);
    var at, end := PacketData(c, msg, i);
    FlagOf(c, msg, i);
    LastFlag(c, |msg|, i);
    NextProduct(i, c);
    var next := Accept(link, st, p.data, p.flag).0;
    if !next.overrun && i + 1 < total {
      PacketsOverrun(link, next, msg, i + 1);
    }
  }

  /** The frames of a message overrun the reassembly buffer exactly if what it holds and the message's
      payload are longer than it together: process does not check. */
  lemma MessageOverruns(link: Link, msg: seq<byte>, parts: seq<seq<Event>>, room: nat, leftover: seq<byte>,
    delivered: seq<seq<byte>>)
    requires FramesFit(link.c, link.n) && msg != []
    requires Chunked(FramesFrom(link.c, msg, 0), parts) && FirstFits(FramesFrom(link.c, msg, 0), room)
    ensures
      Run(link, State([], room, leftover, delivered, false), Flattened(parts)).overrun <==>
      |leftover| + |Payload(link.c, msg)| > 300
  {
    hide Unasked, Run, TotalChunks, Chunked, FirstFits, FramesFrom, AcceptAll, PacketsBetween, Payload, ValidPacket;
    var c, st := link.c, State([], link.n, leftover, delivered, false);
    NoChunks(c, msg);
    FramesAre(c, msg, 0);
    PacketsValid(c, msg, 0, TotalChunks(c, |msg|));
    MiddleUnasked(link, msg, TotalChunks(c, |msg|));
    PacketsOverrun(link, st, msg, 0);
    assert 0 * c == 0;
    PacketsArrive(link, st.(remaining := room), PacketsBetween(c, msg, 0, TotalChunks(c, |msg|)), parts);
  }

  /** Every frame in one chunk. */
  function Unsplit(frames: seq<seq<byte>>): (parts: seq<seq<Event>>)
    ensures |parts| == |frames| && forall i :: 0 <= i < |frames| ==> parts[i] == [Event(frames[i], Constant(0))]
  {
    seq(|frames|, i requires 0 <= i < |frames| => [Event(frames[i], Constant(0))])
  }

  lemma UnsplitChunked(frames: seq<seq<byte>>)
    requires forall i :: 0 <= i < |frames| ==> frames[i] != []
    ensures Chunked(frames, Unsplit(frames))
  {
    forall i | 0 <= i < |frames| ensures Calls(Unsplit(frames)[i]) && Joined(Unsplit(frames)[i]) == frames[i] {
      var e := Unsplit(frames)[i];
      assert e[1..] == [] && Joined(e) == frames[i] + Joined([]);
    }
  }

  lemma {:induction false} FramesNonempty(c: nat, msg: seq<byte>, i: nat)
    requires c >= 1
    ensures forall k :: 0 <= k < |FramesFrom(c, msg, i)| ==> FramesFrom(c, msg, i)[k] != []
    decreases TotalChunks(c, |msg|) - i
  {
    hide TotalChunks, PacketAt, PacketBytes;
    if i < TotalChunks(c, |msg|) {
      FramesNonempty(c, msg, i + 1);
    }
  }

  /** 301 bytes. */
  function LongMessage(): seq<byte> { Zeros(301) }

  /** A clean receiver's reassembly buffer is overrun by the frames of msg, each in one chunk. */
  ghost predicate OverrunBy(link: Link, msg: seq<byte>)
    requires link.c >= 1
  {
    var frames := FramesFrom(link.c, msg, 0);
    && Chunked(frames, Unsplit(frames))
    && Run(link, State([], link.n, [], [], false), Flattened(Unsplit(frames))).overrun
  }

  /** Such a message, sent with the sizes of this repository. */
  lemma LongMessageOverruns(link: Link)
    requires link.c == 15 && link.n == 33
    ensures OverrunBy(link, LongMessage())
  {
    hide Run, FramesFrom, Unsplit, Chunked, FirstFits, LongMessage, Payload;
    var frames := FramesFrom(link.c, LongMessage(), 0);
    FifteenFits();
    MessageFits(link.c, link.n, LongMessage());
    FramesNonempty(link.c, LongMessage(), 0);
    UnsplitChunked(frames);
    PayloadFits(link.c, LongMessage());
    LongPayload();
    MessageOverruns(link, LongMessage(), Unsplit(frames), link.n, [], []);
  }

  lemma LongPayload()
    ensures |LongMessage()| == 301 && Payload(15, LongMessage()) == LongMessage()
  {
  }

  // ----- Memory that was never written -----

  /** A frame of a packet whose last byte was lost: [1] as data, 1 as sequence number and as crc, and the
      tag of the flag without its value. */
  function CutFrame(): seq<byte> { [10, 9, 0x0A, 1, 1, 0x10, 1, 0x18, 1, 0x20] }

  /** The delimited form of a short packet with 1 as sequence number and as crc. */
  lemma SmallPacket(c: nat, b: seq<byte>, flag: byte)
    requires |b| <= c && |b| < 100 && flag < 4
    ensures PacketBytes(c, Packet(b, 1, 1, flag as nat)) ==
      [(|b| + 8) as byte, 0x0A, |b| as byte] + b + [0x10, 1, 0x18, 1, 0x20] + [flag]
  {
    hide EncVarint, PacketBytes;
    PacketForm(c, Packet(b, 1, 1, flag as nat));
    ShortVarint(|b|);
    ShortVarint(|b| + 8);
    ShortVarint(1);
    ShortVarint(flag as nat);
    var e := FieldBytes(b, 1, 1, flag as nat);
    assert e == [0x0A, |b| as byte] + b + [0x10, 1, 0x18, 1, 0x20] + [flag];
  }

  lemma ShortVarint(n: nat)
    requires n < 128
    ensures EncVarint(n) == [n as byte]
  {
  }

  /** What cobs_decode writes for it. */
  function CutPacket(): seq<byte> { [9, 0x0A, 1, 1, 0x10, 1, 0x18, 1, 0x20] }

  lemma CutFrameWritten()
    ensures ZeroFree(CutFrame()) && Written(CutFrame()) == CutPacket()
  {
    hide Enc, DecodeFrom;
    EncRun(CutPacket());
    assert [10 as byte] + CutPacket() == CutFrame();
    RoundTrip(CutPacket(), 10);
  }

  lemma CutFrameDecoded(flag: byte)
    requires flag < 4
    ensures Decoded(CutFrame(), Constant(flag)) == PacketBytes(15, Packet([1], 1, 1, flag as nat))
  {
    hide PacketBytes, Written, Decoded;
    SmallPacket(15, [1], flag);
    CutFrameWritten();
    DecodedParts(CutFrame(), Constant(flag));
    assert [9 as byte, 0x0A, 1] + [1] + [0x10, 1, 0x18, 1, 0x20] == CutPacket();
  }

  /** The frame is taken for a packet whose flag is whatever the byte behind the decoded data held: with
      a 3 there the rx handler is called with the one byte, with a 0 it is not called. */
  lemma JunkDecides(link: Link)
    requires link.c == 15 && link.n == 33 && link.hasHandler
    ensures !JunkFree(CutFrame())
    ensures
      var st, frame := State([], 33, [], [], false), CutFrame() + [0];
      && Step(link, st, frame, Constant(3)).0.delivered == [Padded([1])]
      && Step(link, st, frame, Constant(0)).0.delivered == []
  {
    hide Decoded, PacketBytes, DecodedPacket, Padded, Step;
    var st := State([], 33, [], [], false);
    CutFrameTaken(link, st, 3);
    CutFrameTaken(link, st, 0);
    assert [] + [1] == [1];
    CutFrameLength();
  }

  /** Bytes that depend on that memory need not show: this frame, too short for any packet, hands over a
      byte that was never written, and fails whatever it is. */
  lemma JunkMayNotShow(link: Link, st: State, junk: nat -> byte)
    requires st.remaining > 2
    ensures !JunkFree([2, 1])
    ensures FrameOutcome(link, st, [2, 1], junk) == (st.(line := [], remaining := st.remaining - 3), false)
  {
    hide DecodedPacket, Decoded;
    assert Written([2, 1]) == [1] by {
      EncBlock([1], []);
      RoundTrip([1], 2);
      assert Enc([1]) == [2, 1];
    }
    assert DecVarint32([1]) == Some((1, 1));
    if DecodedPacket(link.c, Decoded([2, 1], junk)).Some? {
      PacketNeeds(link.c, Decoded([2, 1], junk));
    }
  }

  lemma CutFrameLength()
    ensures |Written(CutFrame())| == 9 && DecVarint32(Written(CutFrame())) == Some((9, 1))
  {
    hide Written;
    CutFrameWritten();
  }

  lemma CutFrameTaken(link: Link, st: State, flag: byte)
    requires link.c == 15 && link.n == 33 && st == State([], 33, [], [], false) && flag < 4
    ensures
      Step(link, st, CutFrame() + [0], Constant(flag)).0 == Accept(link, st, [1], flag as int).0.(remaining :=
        if Accept(link, st, [1], flag as int).1 then 33 else 22)
  {
    hide Decoded, Written, PacketBytes, DecodedPacket, Padded, ValidPacket;
    CutFrameDecoded(flag);
    CutFrameWritten();
    WholeFrame(link, st, CutFrame(), Constant(flag));
    var p := Packet([1], 1, 1, flag as nat);
    assert ValidPacket(15, p) by { SmallValid([1], flag); }
    PacketRead(15, p, []);
    NoBytes(PacketBytes(15, p));
  }

  lemma SmallValid(b: seq<byte>, flag: byte)
    requires |b| <= 15 && flag < 4
    ensures ValidPacket(15, Packet(b, 1, 1, flag as nat))
  {
  }

  // ----- A receiver that is lost for good -----

  /** Calls of process with a single zero byte. */
  function Nuls(k: nat): (events: seq<Event>)
    ensures |events| == k && Calls(events)
  {
    seq(k, _ => Event([0], Constant(0)))
  }

  lemma NulFails(link: Link, st: State)
    requires st.line == [] && st.remaining > 0
    ensures Step(link, st, [0], Constant(0)) == (st.(remaining := st.remaining - 1), false)
  {
    hide DecodedPacket, Decoded;
    assert [] + [0] == [0];
    WholeFrame(link, st, [], Constant(0));
    EmptyBody(link.c);
  }

  lemma EmptyBody(c: nat)
    ensures DecodedPacket(c, Decoded([], Constant(0))) == None
  {
  }

  /** Empty frames use up the room: after as many zero bytes as rx_buffer is long, none is left, and
      RefusedForever says what follows. */
  lemma {:induction false} NulsUseUpRoom(link: Link, st: State, k: nat)
    requires st.line == [] && !st.overrun && k <= st.remaining
    ensures Run(link, st, Nuls(k)) == st.(remaining := st.remaining - k)
    decreases k
  {
    hide Step;
    if k > 0 {
      NulFails(link, st);
      assert Nuls(k)[1..] == Nuls(k - 1);
      NulsUseUpRoom(link, st.(remaining := st.remaining - 1), k - 1);
    }
  }

  /** What a packet takes at least: four fields with a tag and a value each, and the length in front. */
  const PACKET_MIN: nat := 9

  lemma {:induction false} SeenBytes(fields: seq<Field>, st: Progress, s: seq<byte>)
    requires DecLoop(fields, st, s).Some?
    ensures 2 * |DecLoop(fields, st, s).value.seen| <= 2 * |st.seen| + |s|
    decreases |s|
  {
    hide Turn;
    if s != [] && Turn(fields, st, s).Go? {
      TurnBytes(fields, st, s);
      SeenBytes(fields, Turn(fields, st, s).st, s[Turn(fields, st, s).n..]);
    }
  }

  lemma TurnBytes(fields: seq<Field>, st: Progress, s: seq<byte>)
    requires Turn(fields, st, s).Go?
    ensures 2 * |Turn(fields, st, s).st.seen| <= 2 * |st.seen| + Turn(fields, st, s).n
  {
    hide DecTag, PbCommon.Find, SkipField, DecField;
    var t := DecTag(s);
    if PbCommon.Find(fields, t.tag).Some? {
      FieldBytesTaken(fields, PbCommon.Find(fields, t.tag).value, t.wire, st, s[t.size..]);
    }
  }

  lemma FieldBytesTaken(fields: seq<Field>, i: nat, wire: nat, st: Progress, s: seq<byte>)
    requires i < |fields| && DecField(fields, i, wire, st, s).Some?
    ensures
      var (st', n) := DecField(fields, i, wire, st, s).value;
      |st'.seen| <= |st.seen| || (|st'.seen| <= |st.seen| + 1 && n >= 1)
  {
    hide DecValue, DecRepeated, Defaults, ZeroMessage;
    OneMoreSeen(st.seen, i);
    if fields[i].htype.Required? {
      assert DecSlot(fields[i], wire, st.message.slots[i], s).value.1 >= 1;
    }
  }

  lemma OneMoreSeen(seen: set<nat>, i: nat)
    ensures |seen + {i}| <= |seen| + 1
  {
    if i in seen {
      assert seen + {i} == seen;
    }
  }

  lemma AllFourSeen(seen: set<nat>)
    requires 0 in seen && 1 in seen && 2 in seen && 3 in seen
    ensures |seen| >= 4
  {
    var rest := seen - {0} - {1} - {2} - {3};
    assert seen == rest + {0} + {1} + {2} + {3};
  }

  lemma {:induction false} BeforeAtMost(fields: seq<Field>, i: nat)
    requires i <= |fields|
    ensures PbCommon.RequiredBefore(fields, i) <= i
  {
  }

  /** Fewer bytes never make a packet. */
  lemma PacketNeeds(c: nat, data: seq<byte>)
    requires DecodedPacket(c, data).Some?
    ensures |data| >= PACKET_MIN
  {
    hide DecVarint32, DecLoop, Defaults, ZeroMessage, PbCommon.RequiredBefore;
    var fields, s := PacketFields(c), Delimited(data);
    var start := Progress(Defaults(fields, ZeroMessage(fields)), {});
    SeenBytes(fields, start, s);
    var seen := DecLoop(fields, start, s).value.seen;
    forall i | 0 <= i < 4 ensures i in seen { BeforeAtMost(fields, i); }
    AllFourSeen(seen);
  }

  lemma StepWithoutRoom(link: Link, st: State, e: Event)
    requires e.chunk != [] && !st.overrun && |st.line| + st.remaining <= PACKET_MIN
    ensures
      var end := Step(link, st, e.chunk, e.junk).0;
      && end.delivered == st.delivered && end.packet == st.packet && !end.overrun
      && |end.line| + end.remaining <= |st.line| + st.remaining
  {
    hide Decoded, DecodedPacket, Copied, NulAt;
    var Event(chunk, junk) := e;
    if |chunk| <= st.remaining && chunk[|chunk| - 1] == 0 {
      var line := st.line + Copied(chunk);
      CopiedEnd(chunk);
      NulBefore(line, |line| - 1);
      var data := Decoded(line[..NulAt(line)], junk);
      if DecodedPacket(link.c, data).Some? {
        PacketNeeds(link.c, data);
      }
    }
  }

  /** With room for no more than nine bytes, what is held included, no frame ever succeeds again: nothing
      is delivered and the room never comes back. */
  lemma {:induction false} LostForGood(link: Link, st: State, events: seq<Event>)
    requires Calls(events) && !st.overrun && |st.line| + st.remaining <= PACKET_MIN
    ensures
      var end := Run(link, st, events);
      && end.delivered == st.delivered && end.packet == st.packet && !end.overrun
      && |end.line| + end.remaining <= |st.line| + st.remaining
    decreases |events|
  {
    hide Step;
    if events != [] {
      StepWithoutRoom(link, st, events[0]);
      LostForGood(link, Step(link, st, events[0].chunk, events[0].junk).0, events[1..]);
    }
  }

  /** The body of a packet without data, but for its last byte. */
  function ShortFrame(): seq<byte> { [3, 8, 0x0A, 6, 0x10, 1, 0x18, 1, 0x20] }

  lemma ShortFrameWritten()
    ensures ZeroFree(ShortFrame()) && Written(ShortFrame()) == [8, 0x0A, 0, 0x10, 1, 0x18, 1, 0x20]
  {
    hide Enc, DecodeFrom;
    var run: seq<byte>, rest: seq<byte> := [8, 0x0A], [0x10, 1, 0x18, 1, 0x20];
    EncBlock(run, rest);
    EncRun(rest);
    assert run + Gap(run) + rest == [8, 0x0A, 0, 0x10, 1, 0x18, 1, 0x20];
    assert Block(run, [6] + rest) == ShortFrame();
    RoundTrip(run + Gap(run) + rest, 9);
  }

  lemma ShortFrameDecoded()
    ensures Decoded(ShortFrame(), Constant(0)) == PacketBytes(0, Packet([], 1, 1, 0))
  {
    hide PacketBytes, Written, Decoded;
    SmallPacket(0, [], 0);
    ShortFrameWritten();
    DecodedParts(ShortFrame(), Constant(0));
    assert [8 as byte, 0x0A, 0] + [] + [0x10, 1, 0x18, 1, 0x20] == [8, 0x0A, 0, 0x10, 1, 0x18, 1, 0x20];
  }

  /** One byte more can be enough, so nine is exactly the limit: between frames, the room can come back
      if and only if it is larger. */
  lemma RoomComesBack(link: Link, st: State)
    requires st.line == [] && !st.overrun && st.remaining < link.n && |st.packet| <= PACKET_BUFFER_SIZE
    requires link.c + 1 + BYTES_OFFSET <= PB_SIZE_MAX
    ensures st.remaining > PACKET_MIN <==>
      exists events :: Calls(events) && Run(link, st, events).remaining > st.remaining
  {
    hide Run, Step;
    if st.remaining > PACKET_MIN {
      var e := Event(ShortFrame() + [0], Constant(0));
      ShortFrameTaken(link, st);
      OneRun(link, st, e);
      assert Run(link, st, [e]).remaining > st.remaining;
    } else {
      forall events | Calls(events) ensures Run(link, st, events).remaining <= st.remaining {
        LostForGood(link, st, events);
      }
    }
  }

  lemma ShortFrameTaken(link: Link, st: State)
    requires st.line == [] && st.remaining > PACKET_MIN && |st.packet| <= PACKET_BUFFER_SIZE
    requires link.c + 1 + BYTES_OFFSET <= PB_SIZE_MAX
    ensures Step(link, st, ShortFrame() + [0], Constant(0)) == (st.(remaining := link.n), true)
  {
    hide Decoded, Written, PacketBytes, DecodedPacket, Padded;
    SmallPacket(0, [], 0);
    SmallPacket(link.c, [], 0);
    ShortFrameDecoded();
    ShortFrameWritten();
    WholeFrame(link, st, ShortFrame(), Constant(0));
    PacketRead(link.c, Packet([], 1, 1, 0), []);
    NoBytes(PacketBytes(link.c, Packet([], 1, 1, 0)));
    NoBytes(st.packet);
  }
}
