/** Runs of the receiver of src/PacketSerial.c: what every run keeps, how frames arrive, and what
    becomes of a message that send has cut up. */
module EndToEnd {
  import opened Bytes
  import Powers
  import opened PbWire
  import opened PbTypes
  import opened PbEncode
  import opened PbDecode
  import PbRoundTrip
  import opened Cobs
  import opened Packets
  import opened Reception

  /** A call of process, and what the memory for its decoded data happened to hold. */
  datatype Event = Event(chunk: seq<byte>, junk: nat -> byte)

  ghost predicate Calls(events: seq<Event>) {
    forall i :: 0 <= i < |events| ==> events[i].chunk != []
  }

  /** The state after a run. */
  function Run(link: Link, st: State, events: seq<Event>): State
    requires Calls(events)
    decreases |events|
  {
    if events == [] || st.overrun then st
    else Run(link, Step(link, st, events[0].chunk, events[0].junk).0, events[1..])
  }

  function Joined(events: seq<Event>): seq<byte> {
    if events == [] then [] else events[0].chunk + Joined(events[1..])
  }

  lemma {:induction false} RunAppend(link: Link, st: State, a: seq<Event>, b: seq<Event>)
    requires Calls(a) && Calls(b)
    ensures Calls(a + b) && Run(link, st, a + b) == Run(link, Run(link, st, a), b)
    decreases |a|
  {
    hide Step;
    if a == [] {
      assert a + b == b;
    } else if !st.overrun {
      assert (a + b)[1..] == a[1..] + b;
      RunAppend(link, Step(link, st, a[0].chunk, a[0].junk).0, a[1..], b);
    }
  }

  lemma NothingRuns(link: Link, st: State)
    ensures Run(link, st, []) == st
  {
  }

  lemma OverrunEnds(link: Link, st: State, events: seq<Event>)
    requires Calls(events) && st.overrun
    ensures Run(link, st, events) == st
  {
  }

  lemma OneRun(link: Link, st: State, e: Event)
    requires e.chunk != []
    ensures Calls([e]) && Run(link, st, [e]) == if st.overrun then st else Step(link, st, e.chunk, e.junk).0
  {
    hide Step;
    assert [e][1..] == [];
  }

  lemma OverrunStays(link: Link, st: State, chunk: seq<byte>, junk: nat -> byte)
    requires chunk != [] && st.overrun
    ensures Step(link, st, chunk, junk).0.overrun
  {
    hide DecodedPacket, Decoded, NulAt, Copied;
  }

  // ----- What every run keeps -----

  /** How many bytes belong to frames that have failed since the last that succeeded. */
  function Failed(link: Link, st: State, failed: nat, events: seq<Event>): nat
    requires Calls(events)
    decreases |events|
  {
    if events == [] || st.overrun then failed
    else
      var Event(chunk, junk) := events[0];
      var (st', ok) := Step(link, st, chunk, junk);
      var failed' :=
        if |chunk| > st.remaining || chunk[|chunk| - 1] != 0 then failed
        else if ok then 0
        else failed + |st.line| + |chunk|;
      Failed(link, st', failed', events[1..])
  }

  lemma StepAccounts(link: Link, st: State, failed: nat, e: Event)
    requires e.chunk != [] && |st.line| + st.remaining + failed == link.n
    ensures
      var (st', ok) := Step(link, st, e.chunk, e.junk);
      var failed' :=
        if |e.chunk| > st.remaining || e.chunk[|e.chunk| - 1] != 0 then failed
        else if ok then 0
        else failed + |st.line| + |e.chunk|;
      |st'.line| + st'.remaining + failed' == link.n
  {
    hide Parse, Decoded, NulAt, Copied;
  }

  /** Receiver accounting: the bytes held, the room left and the bytes of failed frames add up to the
      buffer, after every run. A frame that fails costs its length for good. */
  lemma {:induction false} Accounting(link: Link, st: State, failed: nat, events: seq<Event>)
    requires Calls(events) && |st.line| + st.remaining + failed == link.n
    ensures
      var end := Run(link, st, events);
      |end.line| + end.remaining + Failed(link, st, failed, events) == link.n
    decreases |events|
  {
    hide Step;
    if events != [] && !st.overrun {
      StepAccounts(link, st, failed, events[0]);
      var Event(chunk, junk) := events[0];
      var (st', ok) := Step(link, st, chunk, junk);
      var failed' :=
        if |chunk| > st.remaining || chunk[|chunk| - 1] != 0 then failed
        else if ok then 0
        else failed + |st.line| + |chunk|;
      Accounting(link, st', failed', events[1..]);
    }
  }

  /** Once no room is left, every later call is refused and changes nothing. */
  lemma {:induction false} RefusedForever(link: Link, st: State, events: seq<Event>)
    requires Calls(events) && st.remaining == 0
    ensures Run(link, st, events) == st
    ensures forall i :: 0 <= i < |events| ==> Step(link, st, events[i].chunk, events[i].junk) == (st, false)
    decreases |events|
  {
    hide Complete, Copied;
    if events != [] {
      RefusedForever(link, st, events[1..]);
    }
  }

  // ----- A frame -----

  /** What a frame with this zero-free body does to a receiver between frames. */
  function FrameOutcome(link: Link, st: State, body: seq<byte>, junk: nat -> byte): (State, bool)
    requires |body| < st.remaining
  {
    var (parsed, ok) := Parse(link, st, Decoded(body, junk));
    (parsed.(line := [], remaining := if ok then link.n else st.remaining - |body| - 1), ok)
  }

  lemma FrameNul(body: seq<byte>)
    requires ZeroFree(body)
    ensures NulAt(body + [0]) == |body|
  {
    assert (body + [0])[..|body|] == body;
    NulUnique(body + [0], |body|);
  }

  lemma ParseLine(link: Link, st: State, line: seq<byte>, remaining: nat, data: seq<byte>)
    ensures
      var (a, ok) := Parse(link, st.(line := line, remaining := remaining), data);
      var (b, ok') := Parse(link, st, data);
      ok == ok' && a == b.(line := line, remaining := remaining)
  {
    hide DecodedPacket;
  }

  lemma CompleteFrame(link: Link, st: State, body: seq<byte>, junk: nat -> byte)
    requires ZeroFree(body) && |body| < st.remaining
    ensures Complete(link, st.(line := body + [0], remaining := st.remaining - |body| - 1), junk) ==
      FrameOutcome(link, st, body, junk)
  {
    hide Parse, Decoded, NulAt;
    FrameNul(body);
    assert (body + [0])[..|body|] == body;
    ParseLine(link, st, body + [0], st.remaining - |body| - 1, Decoded(body, junk));
  }

  lemma CopiedWhole(chunk: seq<byte>)
    requires chunk != [] && ZeroFree(chunk[..|chunk| - 1])
    ensures Copied(chunk) == chunk
  {
    hide NulAt;
    var k := |chunk| - 1;
    if chunk[k] == 0 {
      NulUnique(chunk, k);
      assert chunk == chunk[..k] + Zeros(1);
    } else {
      assert ZeroFree(chunk[..|chunk|]);
      NulUnique(chunk, |chunk|);
      assert chunk == chunk[..|chunk|] + Zeros(0);
    }
  }

  /** A frame that arrives whole between frames is parsed exactly if it fits in what remains, and is
      refused with nothing changed if it does not. */
  lemma WholeFrame(link: Link, st: State, body: seq<byte>, junk: nat -> byte)
    requires st.line == [] && ZeroFree(body)
    ensures Step(link, st, body + [0], junk) ==
      if |body| < st.remaining then FrameOutcome(link, st, body, junk) else (st, false)
  {
    hide Complete, Copied, FrameOutcome;
    var frame := body + [0];
    if |body| < st.remaining {
      assert frame[..|frame| - 1] == body;
      CopiedWhole(frame);
      assert [] + frame == frame;
      CompleteFrame(link, st, body, junk);
    }
  }

  // ----- Frames in chunks -----

  lemma {:induction false} JoinedLength(events: seq<Event>)
    requires Calls(events) && events != []
    ensures Joined(events) != [] && |events[0].chunk| <= |Joined(events)|
    ensures |events| > 1 ==> |events[0].chunk| < |Joined(events)|
  {
    if |events| > 1 {
      assert events[1..][0].chunk != [];
      assert Joined(events[1..]) == events[1..][0].chunk + Joined(events[1..][1..]);
    }
  }

  /** The chunks of a frame only add up until the last one completes it. */
  lemma {:induction false} ChunksRun(link: Link, st: State, body: seq<byte>, events: seq<Event>)
    requires Calls(events) && events != [] && !st.overrun && ZeroFree(body)
    requires st.line + Joined(events) == body + [0] && |Joined(events)| <= st.remaining
    ensures Run(link, st, events) ==
      Complete(link, st.(line := body + [0], remaining := st.remaining - |Joined(events)|), events[|events| - 1].junk).0
    ensures forall i :: 0 <= i < |events| - 1 ==> events[i].chunk[|events[i].chunk| - 1] != 0
    decreases |events|
  {
    hide Complete, Copied;
    var Event(chunk, junk) := events[0];
    var k := |chunk| - 1;
    JoinedLength(events);
    var line := st.line + chunk;
    ChunkOfFrame(st.line, chunk, Joined(events[1..]), body);
    CopiedWhole(chunk);
    var st' := Step(link, st, chunk, junk).0;
    if |events| == 1 {
      assert Joined(events[1..]) == [];
      NoBytes(line);
    } else {
      JoinedLength(events[1..]);
      Assoc(st.line, chunk, Joined(events[1..]));
      ChunksRun(link, st', body, events[1..]);
      forall i | 0 <= i < |events| - 1 ensures events[i].chunk[|events[i].chunk| - 1] != 0 {
        if i > 0 {
          assert events[1..][i - 1] == events[i];
        }
      }
    }
  }

  /** Every chunk of a frame is zero-free, but for the zero at the end of the last. */
  lemma ChunkOfFrame(line: seq<byte>, chunk: seq<byte>, rest: seq<byte>, body: seq<byte>)
    requires chunk != [] && ZeroFree(body) && line + (chunk + rest) == body + [0]
    ensures ZeroFree(chunk[..|chunk| - 1])
    ensures rest == [] ==> chunk[|chunk| - 1] == 0 && line + chunk == body + [0]
    ensures rest != [] ==> chunk[|chunk| - 1] != 0
  {
    var frame := body + [0];
    forall i | 0 <= i < |chunk| ensures chunk[i] == frame[|line| + i] {
      assert (line + (chunk + rest))[|line| + i] == chunk[i];
    }
    if rest == [] {
      NoBytes(chunk);
    }
  }

  /** Every frame that fits has the outcome of its last chunk, however it is split into nonempty chunks:
      the others only wait. */
  lemma SplitIndependent(link: Link, st: State, body: seq<byte>, events: seq<Event>)
    requires Calls(events) && st.line == [] && !st.overrun && ZeroFree(body)
    requires Joined(events) == body + [0] && |body| < st.remaining
    ensures events != [] && Run(link, st, events) == FrameOutcome(link, st, body, events[|events| - 1].junk).0
    ensures forall i :: 0 <= i < |events| - 1 ==> events[i].chunk[|events[i].chunk| - 1] != 0
  {
    hide Run, Complete, FrameOutcome, Joined;
    assert events != [] by { NothingJoined(); }
    assert st.line + Joined(events) == body + [0];
    ChunksRun(link, st, body, events);
    CompleteFrame(link, st, body, events[|events| - 1].junk);
  }

  lemma NothingJoined()
    ensures Joined([]) == []
  {
  }

  /** Chunking independence: a frame that fits, and whose packet does not reach into memory that was
      never written, has the same outcome for every split and whatever that memory holds. */
  lemma ChunkingIndependent(link: Link, st: State, body: seq<byte>, events: seq<Event>, junk: nat -> byte)
    requires Calls(events) && st.line == [] && !st.overrun && ZeroFree(body) && JunkFree(body)
    requires Joined(events) == body + [0] && |body| < st.remaining
    ensures Run(link, st, events) == FrameOutcome(link, st, body, junk).0
  {
    hide Run, FrameOutcome, JunkFree, Joined;
    SplitIndependent(link, st, body, events);
    SameOutcome(link, st, body, events[|events| - 1].junk, junk);
  }

  lemma SameOutcome(link: Link, st: State, body: seq<byte>, junk: nat -> byte, junk': nat -> byte)
    requires |body| < st.remaining && JunkFree(body)
    ensures FrameOutcome(link, st, body, junk) == FrameOutcome(link, st, body, junk')
  {
    hide Decoded, DecodedPacket, JunkFree, Handed, HandedAnyway;
    HandedSame(body, junk);
    HandedSame(body, junk');
    ParsedFromHanded(link.c, body, junk, junk');
  }

  // ----- Frames of packets -----

  lemma SlotCount(fields: seq<Field>, m: Message)
    requires InRangeMessage(fields, m)
    ensures |m.slots| == |fields|
  {
  }

  /** Decoding a packet's encoding into any struct gives the packet. */
  lemma PacketDecodes(c: nat, p: Packet, dest: Message)
    requires ValidPacket(c, p) && c + 1 + BYTES_OFFSET <= PB_SIZE_MAX && BodyMax(c) < Powers.B32
    requires ShapedMessage(PacketFields(c), dest)
    ensures EncMessage(PacketFields(c), PacketMessage(p)).Some?
    ensures
      var r := DecMessage(PacketFields(c), dest, EncMessage(PacketFields(c), PacketMessage(p)).value);
      && r.Some? && IsPacket(r.value)
      && r.value.slots[0].value == Blob(p.data) && r.value.slots[1].value == Num(p.sequenceNumber)
      && r.value.slots[2].value == Num(p.crc) && r.value.slots[3].value == Num(p.flag)
  {
    hide InRangeMessage, ValidDescriptor, ShapedMessage, EncMessage, DecMessage, EncVarint, PbRoundTrip.Legible;
    var fields, m := PacketFields(c), PacketMessage(p);
    PacketInRange(c, p);
    PacketDescriptor(c);
    PacketEncodes(c, p);
    SlotCount(fields, m);
    PbRoundTrip.ShortIsLegible(fields, fields, m);
    PbRoundTrip.DecodeInverts(fields, m, dest);
    var r := DecMessage(fields, dest, EncMessage(fields, m).value).value;
    forall i | 0 <= i < 4 ensures r.slots[i].Single? && r.slots[i].value == m.slots[i].value {
      assert SameSlot(fields[i], m.slots[i], r.slots[i], m.which);
    }
  }

  /** A packet is read back from its delimited form, whatever follows it. */
  lemma PacketRead(c: nat, p: Packet, rest: seq<byte>)
    requires c + 1 + BYTES_OFFSET <= PB_SIZE_MAX && ValidPacket(c, p)
    ensures DelimitedEnd(PacketBytes(c, p) + rest) == Some(|PacketBytes(c, p)|)
    ensures
      var r := DecodedPacket(c, PacketBytes(c, p) + rest);
      r.Some? && IsPacket(r.value) && r.value.slots[0].value.bytes == p.data && r.value.slots[3].value.n == p.flag
  {
    hide EncMessage, DecMessage, EncVarint, ZeroMessage, DelimitedEnd, Delimited, EncString, ShapedMessage;
    PacketEncodes(c, p);
    BodySmall(c);
    ZeroShaped(PacketFields(c));
    PacketDecodes(c, p, ZeroMessage(PacketFields(c)));
    PbRoundTrip.StringRoundTrip(EncMessage(PacketFields(c), PacketMessage(p)).value, rest);
  }

  /** The body of a packet's frame is zero-free and needs no byte that was not written. */
  lemma FrameBody(c: nat, n: nat, p: Packet, junk: nat -> byte)
    requires FramesFit(c, n) && ValidPacket(c, p)
    ensures
      var body := Enc(PacketBytes(c, p));
      && ZeroFree(body) && |body| < n && JunkFree(body)
      && var r := DecodedPacket(c, Decoded(body, junk));
         r.Some? && IsPacket(r.value) && r.value.slots[0].value.bytes == p.data && r.value.slots[3].value.n == p.flag
  {
    hide DecMessage, EncVarint, DecodeFrom, Enc, ZeroMessage, DecVarint32, Delimited, PacketBytes, DecodedPacket;
    var x := PacketBytes(c, p);
    var body := Enc(x);
    PacketEncodes(c, p);
    EncRoundTrip(x);
    EncLonger(x);
    RoundTrip(x, |body|);
    PacketRead(c, p, []);
    NoBytes(x);
    DecodedParts(body, junk);
    PacketRead(c, p, Memory(junk, |x|, |body| - |x|));
  }

  lemma EncLonger(x: seq<byte>)
    ensures |Enc(x)| > |x|
  {
    EncSize([], x);
    assert [] + x == x;
  }

  lemma BodySmall(c: nat)
    requires c + 1 + BYTES_OFFSET <= PB_SIZE_MAX
    ensures BodyMax(c) < Powers.B32
  {
    VarintShort(c);
  }

  /** A packet's frame arrives between frames, in whatever chunks, however many frames have failed
      before it, if it still fits: its data and its flag are taken in, and all of the buffer is
      available again, unless the reassembled bytes are refused. */
  lemma PacketArrives(link: Link, st: State, p: Packet, events: seq<Event>)
    requires FramesFit(link.c, link.n) && ValidPacket(link.c, p)
    requires Calls(events) && Joined(events) == Frame(link.c, p)
    requires st.line == [] && |Frame(link.c, p)| <= st.remaining && !st.overrun
    ensures
      var (next, ok) := Accept(link, st, p.data, p.flag);
      Run(link, st, events) == next.(remaining := if ok then link.n else st.remaining - |Frame(link.c, p)|)
  {
    hide Run, Joined, FramesFit, DecodedPacket, Decoded, JunkFree, Enc, DecodeFrom;
    var body, junk := Enc(PacketBytes(link.c, p)), Constant(0);
    FrameBody(link.c, link.n, p, junk);
    ChunkingIndependent(link, st, body, events, junk);
  }

  /** The whole buffer has room for every frame. */
  lemma FrameFits(c: nat, n: nat, p: Packet)
    requires FramesFit(c, n) && ValidPacket(c, p)
    ensures |Frame(c, p)| <= n
  {
    hide FramesFit, ValidPacket, Enc, PacketBytes, JunkFree, DecodedPacket, Decoded;
    FrameBody(c, n, p, Constant(0));
  }

  // ----- Whole messages -----

  /** parts says in which chunks each of the frames arrives. */
  ghost predicate Chunked(frames: seq<seq<byte>>, parts: seq<seq<Event>>) {
    |parts| == |frames| && forall i :: 0 <= i < |parts| ==> Calls(parts[i]) && Joined(parts[i]) == frames[i]
  }

  /** There is room for the first of the frames; after it the room is all there again. */
  predicate FirstFits(frames: seq<seq<byte>>, room: nat) { frames != [] ==> |frames[0]| <= room }

  function Flattened(parts: seq<seq<Event>>): (events: seq<Event>)
    requires forall i :: 0 <= i < |parts| ==> Calls(parts[i])
    ensures Calls(events)
  {
    if parts == [] then []
    else
      CallsAppend(parts[0], Flattened(parts[1..]));
      parts[0] + Flattened(parts[1..])
  }

  lemma CallsAppend(a: seq<Event>, b: seq<Event>)
    requires Calls(a) && Calls(b)
    ensures Calls(a + b)
  {
  }

  // ----- Packets, in order or not -----

  /** The packets' data and flags taken in one after the other. */
  function AcceptAll(link: Link, st: State, packets: seq<Packet>): State
    decreases |packets|
  {
    if packets == [] || st.overrun then st
    else AcceptAll(link, Accept(link, st, packets[0].data, packets[0].flag).0, packets[1..])
  }

  function FramesOf(c: nat, packets: seq<Packet>): (frames: seq<seq<byte>>)
    ensures |frames| == |packets|
  {
    if packets == [] then [] else [Frame(c, packets[0])] + FramesOf(c, packets[1..])
  }

  lemma ChunkedRest(frames: seq<seq<byte>>, parts: seq<seq<Event>>)
    requires Chunked(frames, parts) && frames != []
    ensures parts != [] && (forall i :: 0 <= i < |parts| ==> Calls(parts[i]))
    ensures Joined(parts[0]) == frames[0] && Chunked(frames[1..], parts[1..])
  {
    hide Calls, Joined;
  }

  lemma FirstFitsAll(c: nat, n: nat, packets: seq<Packet>)
    requires FramesFit(c, n) && forall i :: 0 <= i < |packets| ==> ValidPacket(c, packets[i])
    ensures FirstFits(FramesOf(c, packets), n)
  {
    hide FramesFit, ValidPacket, Frame;
    if packets != [] {
      FrameFits(c, n, packets[0]);
    }
  }

  /** ProtoBuff.unmarshal is not asked about this packet, which is then not refused. */
  predicate Unasked(link: Link, p: Packet) { link.hasHandler || p.flag !in {FLAG_LAST, FLAG_FIRSTLAST} }

  /** Whatever valid packets are framed and arrive in whatever chunks, from any state between frames that
      has room for the first, the receiver takes in exactly their data and flags: it looks at neither
      the crc nor the sequence number. All of rx_buffer is room again after each that is not refused. */
  lemma {:induction false} PacketsArrive(link: Link, st: State, packets: seq<Packet>, parts: seq<seq<Event>>)
    requires FramesFit(link.c, link.n)
    requires forall i :: 0 <= i < |packets| ==> ValidPacket(link.c, packets[i])
    requires forall i :: 0 <= i < |packets| - 1 ==> Unasked(link, packets[i])
    requires Chunked(FramesOf(link.c, packets), parts)
    requires st.line == [] && FirstFits(FramesOf(link.c, packets), st.remaining) && !st.overrun
    ensures
      var end, taken := Run(link, st, Flattened(parts)), AcceptAll(link, st.(remaining := link.n), packets);
      if packets == [] then end == st
      else if Unasked(link, packets[|packets| - 1]) then end == taken
      else end == taken.(remaining := end.remaining)
    decreases |packets|
  {
    hide FramesFit, Frame, Run, Joined, Calls, Chunked, ValidPacket, Accept;
    if packets == [] {
      assert parts == [] by { NoParts(parts); }
      NothingRuns(link, st);
    } else {
      var p := packets[0];
      ChunkedRest(FramesOf(link.c, packets), parts);
      assert FramesOf(link.c, packets)[1..] == FramesOf(link.c, packets[1..]);
      AcceptKeepsLine(link, st, p);
      PacketArrives(link, st, p, parts[0]);
      FlattenedFirst(parts);
      RunAppend(link, st, parts[0], Flattened(parts[1..]));
      var next := Accept(link, st.(remaining := link.n), p.data, p.flag).0;
      if |packets| == 1 {
        OneAccepted(link, st.(remaining := link.n), packets);
        assert parts[1..] == [] by { NoParts(parts[1..]); }
        NothingRuns(link, Run(link, st, parts[0]));
      } else if next.overrun {
        OverrunEnds(link, next, Flattened(parts[1..]));
      } else {
        FirstFitsAll(link.c, link.n, packets[1..]);
        PacketsArrive(link, next, packets[1..], parts[1..]);
      }
    }
  }

  lemma OneAccepted(link: Link, st: State, packets: seq<Packet>)
    requires |packets| == 1 && !st.overrun
    ensures AcceptAll(link, st, packets) == Accept(link, st, packets[0].data, packets[0].flag).0
  {
    hide Accept;
  }

  lemma NoParts(parts: seq<seq<Event>>)
    requires Chunked([], parts)
    ensures parts == []
  {
  }

  lemma FlattenedFirst(parts: seq<seq<Event>>)
    requires parts != [] && forall i :: 0 <= i < |parts| ==> Calls(parts[i])
    ensures Flattened(parts) == parts[0] + Flattened(parts[1..])
  {
    hide Calls;
  }

  lemma {:induction false} FlattenedAppend(parts: seq<seq<Event>>, events: seq<Event>)
    requires CallsOnly(parts) && Calls(events)
    ensures CallsOnly(parts + [events]) && Flattened(parts + [events]) == Flattened(parts) + events
    decreases |parts|
  {
    hide Calls;
    var all := parts + [events];
    assert all[|parts|] == events;
    if parts == [] {
      assert all == [events];
      FlattenedOne(events);
    } else {
      assert all[1..] == parts[1..] + [events];
      FlattenedAppend(parts[1..], events);
      FlattenedFirst(all);
      FlattenedFirst(parts);
      Assoc(parts[0], Flattened(parts[1..]), events);
    }
  }

  lemma FlattenedOne(events: seq<Event>)
    requires Calls(events)
    ensures Flattened([events]) == events && Flattened([]) == []
  {
    hide Calls;
    assert [events][1..] == [];
    FlattenedFirst([events]);
  }

  /** What is taken in does not depend on the room in rx_buffer, and what unmarshal is not asked about is not
      refused. */
  lemma AcceptKeepsLine(link: Link, st: State, p: Packet)
    ensures
      var (st', ok) := Accept(link, st, p.data, p.flag);
      && st'.line == st.line && st'.remaining == st.remaining && (Unasked(link, p) ==> ok)
      && Accept(link, st.(remaining := link.n), p.data, p.flag) == (st'.(remaining := link.n), ok)
  {
  }

  lemma {:induction false} AcceptAppend(link: Link, st: State, a: seq<Packet>, b: seq<Packet>)
    ensures AcceptAll(link, st, a + b) == AcceptAll(link, AcceptAll(link, st, a), b)
    decreases |a|
  {
    hide Accept;
    if a == [] {
      assert a + b == b;
    } else if !st.overrun {
      assert (a + b)[1..] == a[1..] + b;
      AcceptAppend(link, Accept(link, st, a[0].data, a[0].flag).0, a[1..], b);
    }
  }

  // ----- The packets of a message -----

  /** Packets i to j - 1 of a message. */
  function PacketsBetween(c: nat, msg: seq<byte>, i: nat, j: nat): (packets: seq<Packet>)
    requires c >= 1 && i <= j <= TotalChunks(c, |msg|)
    ensures |packets| == j - i
    decreases j - i
  {
    if i == j then [] else [PacketAt(c, msg, i)] + PacketsBetween(c, msg, i + 1, j)
  }

  lemma {:induction false} PacketsBetweenAt(c: nat, msg: seq<byte>, i: nat, j: nat, k: nat)
    requires c >= 1 && i <= j <= TotalChunks(c, |msg|) && k < j - i
    ensures PacketsBetween(c, msg, i, j)[k] == PacketAt(c, msg, i + k)
    decreases k
  {
    hide TotalChunks, PacketAt;
    if k > 0 {
      PacketsBetweenAt(c, msg, i + 1, j, k - 1);
    }
  }

  lemma {:induction false} FramesAre(c: nat, msg: seq<byte>, i: nat)
    requires c >= 1 && i <= TotalChunks(c, |msg|)
    ensures FramesFrom(c, msg, i) == FramesOf(c, PacketsBetween(c, msg, i, TotalChunks(c, |msg|)))
    decreases TotalChunks(c, |msg|) - i
  {
    hide TotalChunks, PacketAt, Frame;
    if i < TotalChunks(c, |msg|) {
      FramesAre(c, msg, i + 1);
    }
  }

  /** The last packet is the one that says so. */
  lemma LastFlag(c: nat, size: nat, i: nat)
    requires c >= 1 && i < TotalChunks(c, size)
    ensures i + 1 == TotalChunks(c, size) <==> ChunkFlag(c, size, i) in {FLAG_LAST, FLAG_FIRSTLAST}
  {
    hide TotalChunks;
  }

  lemma PayloadFits(c: nat, msg: seq<byte>)
    requires c >= 1
    ensures |Payload(c, msg)| == if |msg| % c == 0 && |msg| >= 2 * c then |msg| - c else |msg|
    ensures |Payload(c, msg)| <= |msg| && Payload(c, msg) == msg[..|Payload(c, msg)|]
  {
  }

  /** Where the data of packet i begins and ends in the payload. */
  lemma PacketData(c: nat, msg: seq<byte>, i: nat) returns (at: nat, end: nat)
    requires c >= 1 && i < TotalChunks(c, |msg|)
    ensures at == i * c && at <= end <= |Payload(c, msg)| && PacketAt(c, msg, i).data == Payload(c, msg)[at..end]
    ensures i + 1 < TotalChunks(c, |msg|) ==> end == (i + 1) * c
    ensures i + 1 == TotalChunks(c, |msg|) ==> end == |Payload(c, msg)|
  {
    hide TotalChunks, ChunkSize, CrcValue, ChunkFlag, Payload;
    ChunkFits(c, |msg|, i);
    NextProduct(i, c);
    PayloadFits(c, msg);
    at := i * c;
    end := at + ChunkSize(c, |msg|, i);
    if i + 1 < TotalChunks(c, |msg|) {
      var last := TotalChunks(c, |msg|) - 1;
      ChunkFits(c, |msg|, last);
      Powers.MulLess(i + 1, last, c);
    }
    SamePart(msg, |Payload(c, msg)|, at, end);
  }

  lemma SamePart(msg: seq<byte>, n: nat, at: nat, end: nat)
    requires at <= end <= n <= |msg|
    ensures msg[..n][at..end] == msg[at..end]
  {
  }

  /** Packets before the last only add their data. */
  lemma {:induction false} MiddleTaken(link: Link, st: State, msg: seq<byte>, i: nat, j: nat)
    returns (at: nat, end: nat)
    requires link.c >= 1 && i <= j < TotalChunks(link.c, |msg|) && !st.overrun
    requires |st.packet| + j * link.c <= PACKET_BUFFER_SIZE + i * link.c
    ensures at == i * link.c && end == j * link.c && at <= end <= |Payload(link.c, msg)|
    ensures AcceptAll(link, st, PacketsBetween(link.c, msg, i, j)) ==
      st.(packet := st.packet + Payload(link.c, msg)[at..end])
    decreases j - i
  {
    hide TotalChunks, PacketAt, Payload, ChunkFlag;
    var c, load := link.c, Payload(link.c, msg);
    var end0;
    at, end0 := PacketData(c, msg, i);
    if i == j {
      end := at;
      assert st.packet + load[at..at] == st.packet;
    } else {
      var p := PacketAt(c, msg, i);
      FlagOf(c, msg, i);
      LastFlag(c, |msg|, i);
      NextProduct(i, c);
      Powers.MulLess(i + 1, j, c);
      var st' := st.(packet := st.packet + p.data);
      assert Accept(link, st, p.data, p.flag).0 == st';
      var at';
      at', end := MiddleTaken(link, st', msg, i + 1, j);
      assert st.packet + load[at..at'] + load[at'..end] == st.packet + load[at..end];
    }
  }

  lemma FlagOf(c: nat, msg: seq<byte>, i: nat)
    requires c >= 1 && i < TotalChunks(c, |msg|)
    ensures PacketAt(c, msg, i).flag == ChunkFlag(c, |msg|, i)
  {
    hide TotalChunks, ChunkFlag, ChunkSize, CrcValue;
  }

  /** The packets from i on, the last included, add the rest of the payload to what is there and
      deliver it. */
  lemma {:induction false} TailTaken(link: Link, st: State, msg: seq<byte>, i: nat) returns (at: nat)
    requires link.c >= 1 && i < TotalChunks(link.c, |msg|) && !st.overrun && link.hasHandler
    requires |st.packet| + |Payload(link.c, msg)| <= PACKET_BUFFER_SIZE + i * link.c
    ensures at == i * link.c && at <= |Payload(link.c, msg)|
    ensures |st.packet + Payload(link.c, msg)[at..]| <= PACKET_BUFFER_SIZE
    ensures AcceptAll(link, st, PacketsBetween(link.c, msg, i, TotalChunks(link.c, |msg|))) ==
      st.(packet := [], delivered := st.delivered + [Padded(st.packet + Payload(link.c, msg)[at..])])
  {
    hide TotalChunks, PacketAt, Payload, ChunkFlag, Padded;
    var c, load, last := link.c, Payload(link.c, msg), TotalChunks(link.c, |msg|) - 1;
    var end, at', end';
    at', end' := PacketData(c, msg, last);
    at, end := MiddleTaken(link, st, msg, i, last);
    BetweenLast(c, msg, i, last);
    AcceptAppend(link, st, PacketsBetween(c, msg, i, last), [PacketAt(c, msg, last)]);
    FlagOf(c, msg, last);
    LastFlag(c, |msg|, last);
    assert st.packet + load[at..end] + load[at'..end'] == st.packet + load[at..];
    LastTaken(link, st.(packet := st.packet + load[at..end]), PacketAt(c, msg, last));
  }

  lemma LastTaken(link: Link, st: State, p: Packet)
    requires !st.overrun && link.hasHandler && p.flag in {FLAG_LAST, FLAG_FIRSTLAST}
    requires |st.packet| + |p.data| <= PACKET_BUFFER_SIZE
    ensures AcceptAll(link, st, [p]) == st.(packet := [], delivered := st.delivered + [Padded(st.packet + p.data)])
  {
    hide Padded;
    assert [p][1..] == [];
  }

  lemma {:induction false} BetweenLast(c: nat, msg: seq<byte>, i: nat, j: nat)
    requires c >= 1 && i <= j < TotalChunks(c, |msg|)
    ensures PacketsBetween(c, msg, i, j + 1) == PacketsBetween(c, msg, i, j) + [PacketAt(c, msg, j)]
    decreases j - i
  {
    hide TotalChunks, PacketAt;
    if i < j {
      BetweenLast(c, msg, i + 1, j);
    } else {
      assert PacketsBetween(c, msg, j + 1, j + 1) == [];
    }
  }

  lemma PacketsValid(c: nat, msg: seq<byte>, i: nat, j: nat)
    requires c >= 1 && i <= j <= TotalChunks(c, |msg|)
    ensures forall k :: 0 <= k < j - i ==> ValidPacket(c, PacketsBetween(c, msg, i, j)[k])
  {
    hide TotalChunks, PacketAt, ValidPacket;
    forall k | 0 <= k < j - i ensures ValidPacket(c, PacketsBetween(c, msg, i, j)[k]) {
      PacketsBetweenAt(c, msg, i, j, k);
      PacketAtValid(c, msg, i + k);
    }
  }

  /** Packets before the last of a message do not ask unmarshal. */
  lemma MiddleUnasked(link: Link, msg: seq<byte>, j: nat)
    requires link.c >= 1 && j <= TotalChunks(link.c, |msg|)
    ensures forall k :: 0 <= k < j && k + 1 < TotalChunks(link.c, |msg|) ==>
      Unasked(link, PacketsBetween(link.c, msg, 0, j)[k])
  {
    hide TotalChunks, PacketAt, ChunkFlag;
    forall k | 0 <= k < j && k + 1 < TotalChunks(link.c, |msg|)
      ensures Unasked(link, PacketsBetween(link.c, msg, 0, j)[k])
    {
      PacketsBetweenAt(link.c, msg, 0, j, k);
      FlagOf(link.c, msg, k);
      LastFlag(link.c, |msg|, k);
    }
  }

  // ----- Whole messages, and what is lost -----

  /** The frames of a message arrive at a receiver that still holds leftover bytes of an earlier one:
      they are put in front, because the first packet does not clear the reassembly buffer. Room lost to
      failed frames comes back, if there is enough for the first frame. */
  lemma MessageAfterLeftover(link: Link, msg: seq<byte>, parts: seq<seq<Event>>, room: nat, leftover: seq<byte>,
    delivered: seq<seq<byte>>)
    requires FramesFit(link.c, link.n) && link.hasHandler
    requires msg != [] && |leftover| + |Payload(link.c, msg)| <= PACKET_BUFFER_SIZE
    requires Chunked(FramesFrom(link.c, msg, 0), parts) && FirstFits(FramesFrom(link.c, msg, 0), room)
    ensures Run(link, State([], room, leftover, delivered, false), Flattened(parts)) ==
      State([], link.n, [], delivered + [Padded(leftover + Payload(link.c, msg))], false)
  {
    hide Run, TotalChunks, Chunked, FirstFits, FramesFrom, Padded, AcceptAll, PacketsBetween, Payload, ValidPacket;
    var c, st := link.c, State([], link.n, leftover, delivered, false);
    NoChunks(c, msg);
    FramesAre(c, msg, 0);
    PacketsValid(c, msg, 0, TotalChunks(c, |msg|));
    var at := TailTaken(link, st, msg, 0);
    assert Payload(c, msg)[0..] == Payload(c, msg);
    PacketsArrive(link, st.(remaining := room), PacketsBetween(c, msg, 0, TotalChunks(c, |msg|)), parts);
  }

  /** End to end: the frames of a nonempty message, fed in any chunks to a receiver that holds nothing and
      has room for the first, call the rx handler exactly once, with the message followed by zeros, if
      its payload fits the reassembly buffer. Only if the chunk size divides a message of two chunks or
      more are the last c bytes missing. */
  lemma MessageArrives(link: Link, msg: seq<byte>, parts: seq<seq<Event>>, room: nat, delivered: seq<seq<byte>>)
    requires FramesFit(link.c, link.n) && link.hasHandler
    requires msg != [] && |Payload(link.c, msg)| <= PACKET_BUFFER_SIZE
    requires Chunked(FramesFrom(link.c, msg, 0), parts) && FirstFits(FramesFrom(link.c, msg, 0), room)
    ensures Run(link, State([], room, [], delivered, false), Flattened(parts)) ==
      State([], link.n, [], delivered + [Padded(Payload(link.c, msg))], false)
    ensures Payload(link.c, msg) == msg <==> !(|msg| % link.c == 0 && |msg| >= 2 * link.c)
  {
    hide Run, Chunked, FirstFits, FramesFrom, Padded;
    PayloadFits(link.c, msg);
    MessageAfterLeftover(link, msg, parts, room, [], delivered);
    NoBytes(Payload(link.c, msg));
  }

  /** All of the buffer is room enough. */
  lemma MessageFits(c: nat, n: nat, msg: seq<byte>)
    requires FramesFit(c, n)
    ensures FirstFits(FramesFrom(c, msg, 0), n)
  {
    hide TotalChunks, FirstFits, FramesFrom, FramesOf, PacketsBetween, ValidPacket;
    FramesAre(c, msg, 0);
    PacketsValid(c, msg, 0, TotalChunks(c, |msg|));
    FirstFitsAll(c, n, PacketsBetween(c, msg, 0, TotalChunks(c, |msg|)));
  }

  /** What the handler is called with over a session: one call a message. */
  function Deliveries(c: nat, msgs: seq<seq<byte>>): seq<seq<byte>>
    requires c >= 1 && forall i :: 0 <= i < |msgs| ==> |Payload(c, msgs[i])| <= PACKET_BUFFER_SIZE
  {
    if msgs == [] then []
    else
      [Padded(Payload(c, msgs[0]))] + Deliveries(c, msgs[1..])
  }

  ghost predicate AllCalls(session: seq<seq<seq<Event>>>) {
    forall i :: 0 <= i < |session| ==> CallsOnly(session[i])
  }

  ghost predicate CallsOnly(parts: seq<seq<Event>>) {
    forall j :: 0 <= j < |parts| ==> Calls(parts[j])
  }

  ghost predicate SessionChunked(c: nat, msgs: seq<seq<byte>>, session: seq<seq<seq<Event>>>)
    requires c >= 1
  {
    |session| == |msgs| && forall i :: 0 <= i < |msgs| ==> Chunked(FramesFrom(c, msgs[i], 0), session[i])
  }

  /** All chunks of a session: for each message, those of its frames. */
  function SessionEvents(session: seq<seq<seq<Event>>>): (events: seq<Event>)
    requires AllCalls(session)
    ensures Calls(events)
  {
    if session == [] then []
    else
      CallsAppend(Flattened(session[0]), SessionEvents(session[1..]));
      Flattened(session[0]) + SessionEvents(session[1..])
  }

  /** Any number of messages, one after the other, each in any chunks: one delivery each, in order, from a
      receiver that has room for the first frame. */
  lemma {:induction false} SessionArrives(link: Link, msgs: seq<seq<byte>>, session: seq<seq<seq<Event>>>,
                                          room: nat, delivered: seq<seq<byte>>)
    requires FramesFit(link.c, link.n) && link.hasHandler && SessionChunked(link.c, msgs, session) && AllCalls(session)
    requires msgs != [] ==> FirstFits(FramesFrom(link.c, msgs[0], 0), room)
    requires forall i :: 0 <= i < |msgs| ==> msgs[i] != [] && |Payload(link.c, msgs[i])| <= PACKET_BUFFER_SIZE
    ensures Run(link, State([], room, [], delivered, false), SessionEvents(session)) ==
      State([], if msgs == [] then room else link.n, [], delivered + Deliveries(link.c, msgs), false)
    decreases |msgs|
  {
    hide Run, FramesFrom, FirstFits, Padded, Payload, Joined, Calls, Chunked, CallsOnly;
    var st := State([], room, [], delivered, false);
    if msgs == [] {
      NothingRuns(link, st);
      NoBytes(delivered);
    } else {
      var first := [Padded(Payload(link.c, msgs[0]))];
      FirstCalls(session[0]);
      MessageArrives(link, msgs[0], session[0], room, delivered);
      RunAppend(link, st, Flattened(session[0]), SessionEvents(session[1..]));
      if |msgs| > 1 {
        MessageFits(link.c, link.n, msgs[1]);
      }
      SessionArrives(link, msgs[1..], session[1..], link.n, delivered + first);
      Assoc(delivered, first, Deliveries(link.c, msgs[1..]));
    }
  }

  lemma FirstCalls(parts: seq<seq<Event>>)
    requires CallsOnly(parts)
    ensures forall j :: 0 <= j < |parts| ==> Calls(parts[j])
  {
    hide Calls;
  }

  /** The packets of a message but for the j-th. */
  function AllBut(c: nat, msg: seq<byte>, j: nat): seq<Packet>
    requires c >= 1 && j < TotalChunks(c, |msg|)
  {
    PacketsBetween(c, msg, 0, j) + PacketsBetween(c, msg, j + 1, TotalChunks(c, |msg|))
  }

  /** A lost frame other than the last goes unnoticed: the handler is called with the message without
      that chunk. */
  lemma FrameLost(link: Link, msg: seq<byte>, j: nat, parts: seq<seq<Event>>, room: nat, delivered: seq<seq<byte>>)
    returns (at: nat, end: nat)
    requires FramesFit(link.c, link.n) && link.hasHandler && |Payload(link.c, msg)| <= PACKET_BUFFER_SIZE + link.c
    requires j + 1 < TotalChunks(link.c, |msg|)
    requires Chunked(FramesOf(link.c, AllBut(link.c, msg, j)), parts)
    requires FirstFits(FramesOf(link.c, AllBut(link.c, msg, j)), room)
    ensures at == j * link.c && end == at + link.c && end <= |Payload(link.c, msg)|
    ensures |Payload(link.c, msg)[..at] + Payload(link.c, msg)[end..]| <= PACKET_BUFFER_SIZE
    ensures Run(link, State([], room, [], delivered, false), Flattened(parts)) ==
      State([], link.n, [], delivered + [Padded(Payload(link.c, msg)[..at] + Payload(link.c, msg)[end..])], false)
  {
    hide Run, TotalChunks, Chunked, FramesOf, FirstFits, Padded, AcceptAll, PacketsBetween, Payload, ValidPacket;
    var c, total, st := link.c, TotalChunks(link.c, |msg|), State([], link.n, [], delivered, false);
    PayloadFits(c, msg);
    var a, b := PacketsBetween(c, msg, 0, j), PacketsBetween(c, msg, j + 1, total);
    PacketsValid(c, msg, 0, j);
    PacketsValid(c, msg, j + 1, total);
    var zero, next;
    NextProduct(j, c);
    at, next := PacketData(c, msg, j);
    zero, at := MiddleTaken(link, st, msg, 0, j);
    NoBytes(Payload(c, msg)[0..at]);
    var st' := st.(packet := Payload(c, msg)[..at]);
    end := TailTaken(link, st', msg, j + 1);
    AcceptAppend(link, st, a, b);
    PacketsArrive(link, st.(remaining := room), a + b, parts);
  }

  /** If the last frame is lost, nothing is delivered and the rest of the message stays in the
      reassembly buffer, where MessageAfterLeftover finds it. */
  lemma LastFrameLost(link: Link, msg: seq<byte>, parts: seq<seq<Event>>, room: nat, delivered: seq<seq<byte>>)
    returns (end: nat)
    requires FramesFit(link.c, link.n) && link.hasHandler && TotalChunks(link.c, |msg|) >= 1
    requires (TotalChunks(link.c, |msg|) - 1) * link.c <= PACKET_BUFFER_SIZE
    requires Chunked(FramesOf(link.c, PacketsBetween(link.c, msg, 0, TotalChunks(link.c, |msg|) - 1)), parts)
    requires FirstFits(FramesOf(link.c, PacketsBetween(link.c, msg, 0, TotalChunks(link.c, |msg|) - 1)), room)
    ensures end == (TotalChunks(link.c, |msg|) - 1) * link.c && end <= |Payload(link.c, msg)|
    ensures Run(link, State([], room, [], delivered, false), Flattened(parts)) ==
      State([], if end == 0 then room else link.n, Payload(link.c, msg)[..end], delivered, false)
  {
    hide Run, TotalChunks, Chunked, FramesOf, FirstFits, AcceptAll, PacketsBetween, Payload, ValidPacket;
    var c, last, st := link.c, TotalChunks(link.c, |msg|) - 1, State([], link.n, [], delivered, false);
    PayloadFits(c, msg);
    PacketsValid(c, msg, 0, last);
    var zero;
    zero, end := MiddleTaken(link, st, msg, 0, last);
    NoBytes(Payload(c, msg)[0..end]);
    ProductZero(last, c);
    PacketsArrive(link, st.(remaining := room), PacketsBetween(c, msg, 0, last), parts);
  }

  lemma ProductZero(a: nat, b: nat)
    requires b > 0
    ensures a * b == 0 <==> a == 0
  {
  }
}
