/** What process (src/PacketSerial.c) answers, call by call, with an rx handler and without one. */
module Answers {
  import opened Bytes
  import opened PbDecode
  import Cobs
  import opened Packets
  import opened Reception
  import opened EndToEnd

  // ----- One call -----

  /** A call with more bytes than there is room for is refused, and one without a zero at its end only takes its
      bytes: all of them, or those before a zero and zeros in place of the rest. */
  lemma CallAnswered(link: Link, st: State, chunk: seq<byte>, junk: nat -> byte)
    requires chunk != []
    ensures |chunk| > st.remaining ==> Step(link, st, chunk, junk) == (st, false)
    ensures |chunk| <= st.remaining && chunk[|chunk| - 1] != 0 ==>
      var (end, ok) := Step(link, st, chunk, junk);
      && ok && end.remaining == st.remaining - |chunk| && end.packet == st.packet && end.delivered == st.delivered
      && end.overrun == st.overrun && |end.line| == |st.line| + |chunk| && end.line[..|st.line|] == st.line
      && forall i :: 0 <= i < |chunk| ==> end.line[|st.line| + i] == if 0 in chunk[..i + 1] then 0 else chunk[i]
  {
    hide Complete, Copied;
    forall i | 0 <= i < |chunk| ensures Copied(chunk)[i] == if 0 in chunk[..i + 1] then 0 else chunk[i] {
      CopiedByte(chunk, i);
    }
  }

  lemma CopiedByte(chunk: seq<byte>, i: nat)
    requires i < |chunk|
    ensures Copied(chunk)[i] == if 0 in chunk[..i + 1] then 0 else chunk[i]
  {
    var n := NulAt(chunk);
    if n <= i {
      assert chunk[..i + 1][n] == 0;
    } else {
      forall k | 0 <= k <= i ensures chunk[k] != 0 {
        assert chunk[..n][k] != 0;
      }
    }
  }

  /** A frame whose bytes hold no packet fails: what has been reassembled and delivered stays as it was, and the
      room for the frame is gone. */
  lemma BadFrameAnswered(link: Link, st: State, body: seq<byte>, junk: nat -> byte)
    requires st.line == [] && ZeroFree(body) && |body| < st.remaining
    requires
      var data, fields := Decoded(body, junk), PacketFields(link.c);
      DelimitedEnd(data).None? || DecMessage(fields, ZeroMessage(fields), Delimited(data)).None?
    ensures Step(link, st, body + [0], junk) == (st.(remaining := st.remaining - |body| - 1), false)
  {
    hide Step, Decoded, DecMessage, ZeroMessage, DelimitedEnd, Delimited;
    WholeFrame(link, st, body, junk);
  }

  // ----- All calls of a run -----

  /** The answers of the calls of a run. */
  function AnswersOf(link: Link, st: State, events: seq<Event>): (answers: seq<bool>)
    requires Calls(events)
    ensures |answers| <= |events|
    decreases |events|
  {
    if events == [] || st.overrun then []
    else
      var (next, ok) := Step(link, st, events[0].chunk, events[0].junk);
      [ok] + AnswersOf(link, next, events[1..])
  }

  /** All n answers are true, but for the last, which is ok. */
  predicate LastIs(answers: seq<bool>, n: nat, ok: bool) {
    |answers| == n && forall i :: 0 <= i < n ==> answers[i] == (i < n - 1 || ok)
  }

  lemma CountIs(answers: seq<bool>, n: nat, ok: bool)
    requires LastIs(answers, n, ok)
    ensures |answers| == n
  {
  }

  lemma OneAnswer(link: Link, st: State, e: Event)
    requires e.chunk != []
    ensures Calls([e])
    ensures AnswersOf(link, st, [e]) == if st.overrun then [] else [Step(link, st, e.chunk, e.junk).1]
  {
    hide Step;
    assert [e][1..] == [];
  }

  lemma NoAnswers(link: Link, st: State)
    ensures AnswersOf(link, st, []) == []
  {
  }

  lemma {:induction false} AnswersAppend(link: Link, st: State, a: seq<Event>, b: seq<Event>)
    requires Calls(a) && Calls(b)
    ensures Calls(a + b) && AnswersOf(link, st, a + b) == AnswersOf(link, st, a) + AnswersOf(link, Run(link, st, a), b)
    decreases |a|
  {
    hide Step;
    if a == [] {
      assert a + b == b;
    } else if st.overrun {
      OverrunEnds(link, st, a);
    } else {
      assert (a + b)[1..] == a[1..] + b;
      var (next, ok) := Step(link, st, a[0].chunk, a[0].junk);
      AnswersAppend(link, next, a[1..], b);
      Assoc([ok], AnswersOf(link, next, a[1..]), AnswersOf(link, Run(link, next, a[1..]), b));
    }
  }

  /** A frame in chunks: every call but the last answers true, and the last says what became of the frame. */
  lemma {:induction false} ChunkAnswers(link: Link, st: State, body: seq<byte>, events: seq<Event>)
    requires Calls(events) && events != [] && !st.overrun && ZeroFree(body)
    requires st.line + Joined(events) == body + [0] && |Joined(events)| <= st.remaining
    ensures
      var last := st.(line := body + [0], remaining := st.remaining - |Joined(events)|);
      LastIs(AnswersOf(link, st, events), |events|, Complete(link, last, events[|events| - 1].junk).1)
    decreases |events|
  {
    hide Complete, Copied;
    var Event(chunk, junk) := events[0];
    JoinedLength(events);
    ChunkOfFrame(st.line, chunk, Joined(events[1..]), body);
    CopiedWhole(chunk);
    var next := Step(link, st, chunk, junk).0;
    if |events| == 1 {
      assert Joined(events[1..]) == [];
      NoBytes(chunk);
      NoAnswers(link, next);
    } else {
      JoinedLength(events[1..]);
      Assoc(st.line, chunk, Joined(events[1..]));
      ChunkAnswers(link, next, body, events[1..]);
    }
  }

  /** The frame of a packet: the last call answers what packet_parser does. */
  lemma PacketAnswered(link: Link, st: State, p: Packet, events: seq<Event>)
    requires FramesFit(link.c, link.n) && ValidPacket(link.c, p)
    requires Calls(events) && Joined(events) == Frame(link.c, p)
    requires st.line == [] && |Frame(link.c, p)| <= st.remaining && !st.overrun
    ensures events != [] && LastIs(AnswersOf(link, st, events), |events|, Accept(link, st, p.data, p.flag).1)
  {
    hide Joined, FramesFit, DecodedPacket, Decoded, JunkFree, Cobs.Enc, Cobs.DecodeFrom, AnswersOf, LastIs, Complete;
    var body := Cobs.Enc(PacketBytes(link.c, p));
    if events == [] {
      NothingJoined();
    }
    var junk := events[|events| - 1].junk;
    FrameBody(link.c, link.n, p, junk);
    assert st.line + Joined(events) == body + [0];
    ChunkAnswers(link, st, body, events);
    CompleteFrame(link, st, body, junk);
  }

  /** Without an rx handler the frame of a last or only packet asks ProtoBuff.unmarshal about all that has been
      reassembled, filled up with zeros to 300 bytes: its answer is that of the last call, the reassembly buffer is
      empty afterwards, and all of rx_buffer is room again exactly if it is true. */
  lemma LastPacketAsked(link: Link, st: State, p: Packet, events: seq<Event>) returns (buffer: seq<byte>)
    requires FramesFit(link.c, link.n) && ValidPacket(link.c, p) && !link.hasHandler
    requires p.flag == 2 || p.flag == 3
    requires Calls(events) && Joined(events) == Frame(link.c, p)
    requires st.line == [] && |Frame(link.c, p)| <= st.remaining && !st.overrun && |st.packet| + |p.data| <= 300
    ensures IsPadded(buffer, st.packet + p.data)
    ensures events != [] && LastIs(AnswersOf(link, st, events), |events|, link.unmarshals(buffer))
    ensures Run(link, st, events) ==
      State([], if link.unmarshals(buffer) then link.n else st.remaining - |Frame(link.c, p)|, [], st.delivered, false)
  {
    hide Run, Joined, FramesFit, Frame, AnswersOf, LastIs, Padded, ValidPacket;
    buffer := Padded(st.packet + p.data);
    PaddedForm(st.packet + p.data);
    PacketAnswered(link, st, p, events);
    PacketArrives(link, st, p, events);
  }

  /** 300 bytes: these, and zeros. */
  predicate IsPadded(buffer: seq<byte>, s: seq<byte>) {
    |s| <= |buffer| == 300 && forall i :: 0 <= i < 300 ==> buffer[i] == if i < |s| then s[i] else 0
  }

  lemma PaddedForm(s: seq<byte>)
    requires |s| <= PACKET_BUFFER_SIZE
    ensures IsPadded(Padded(s), s)
  {
  }

  // ----- Messages -----

  lemma {:induction false} PacketsAnswered(link: Link, st: State, packets: seq<Packet>, parts: seq<seq<Event>>)
    requires FramesFit(link.c, link.n)
    requires forall i :: 0 <= i < |packets| ==> ValidPacket(link.c, packets[i]) && Unasked(link, packets[i])
    requires Chunked(FramesOf(link.c, packets), parts)
    requires st.line == [] && FirstFits(FramesOf(link.c, packets), st.remaining) && !st.overrun
    requires !AcceptAll(link, st.(remaining := link.n), packets).overrun
    ensures LastIs(AnswersOf(link, st, Flattened(parts)), |Flattened(parts)|, true)
    decreases |packets|
  {
    hide FramesFit, Frame, Run, Joined, Calls, Chunked, ValidPacket, Accept, AnswersOf;
    if packets == [] {
      assert parts == [] by { NoParts(parts); }
      NoAnswers(link, st);
    } else {
      var p := packets[0];
      ChunkedRest(FramesOf(link.c, packets), parts);
      assert FramesOf(link.c, packets)[1..] == FramesOf(link.c, packets[1..]);
      AcceptKeepsLine(link, st, p);
      PacketAnswered(link, st, p, parts[0]);
      PacketArrives(link, st, p, parts[0]);
      FlattenedFirst(parts);
      AnswersAppend(link, st, parts[0], Flattened(parts[1..]));
      var next := Accept(link, st.(remaining := link.n), p.data, p.flag).0;
      OverrunAccepted(link, next, packets[1..]);
      FirstFitsAll(link.c, link.n, packets[1..]);
      PacketsAnswered(link, next, packets[1..], parts[1..]);
    }
  }

  lemma OverrunAccepted(link: Link, st: State, packets: seq<Packet>)
    ensures st.overrun ==> AcceptAll(link, st, packets) == st
  {
  }

  lemma {:induction false} FramesOfAppend(c: nat, packets: seq<Packet>, p: Packet)
    ensures FramesOf(c, packets + [p]) == FramesOf(c, packets) + [Frame(c, p)]
    decreases |packets|
  {
    hide Frame;
    if packets == [] {
      assert [p][1..] == [] && packets + [p] == [p];
    } else {
      assert (packets + [p])[1..] == packets[1..] + [p];
      FramesOfAppend(c, packets[1..], p);
    }
  }

  lemma ChunkedLast(frames: seq<seq<byte>>, frame: seq<byte>, parts: seq<seq<Event>>)
    requires Chunked(frames + [frame], parts)
    ensures |parts| == |frames| + 1 && Chunked(frames, parts[..|frames|])
    ensures Calls(parts[|frames|]) && Joined(parts[|frames|]) == frame && CallsOnly(parts[..|frames|])
    ensures Flattened(parts) == Flattened(parts[..|frames|]) + parts[|frames|]
  {
    hide Calls, Joined, Flattened, Chunked;
    var k := |frames|;
    ChunkedFront(frames, frame, parts);
    ChunkedCalls(frames, parts[..k]);
    FlattenedAppend(parts[..k], parts[k]);
    assert parts[..k] + [parts[k]] == parts;
  }

  lemma ChunkedFront(frames: seq<seq<byte>>, frame: seq<byte>, parts: seq<seq<Event>>)
    requires Chunked(frames + [frame], parts)
    ensures |parts| == |frames| + 1 && Chunked(frames, parts[..|frames|])
    ensures Calls(parts[|frames|]) && Joined(parts[|frames|]) == frame
  {
    hide Calls, Joined;
    forall i | 0 <= i < |frames| ensures Joined(parts[i]) == frames[i] {
      assert (frames + [frame])[i] == frames[i];
    }
  }

  lemma ChunkedCalls(frames: seq<seq<byte>>, parts: seq<seq<Event>>)
    requires Chunked(frames, parts)
    ensures forall i :: 0 <= i < |parts| ==> Calls(parts[i])
  {
    hide Calls, Joined;
  }

  /** End to end without an rx handler: the frames of a nonempty message, in any chunks, behind what the reassembly
      buffer holds. ProtoBuff.unmarshal is asked about that and the payload, filled up with zeros to 300 bytes; its
      answer is that of the last call, every other call answers true, and the reassembly buffer is empty again. */
  lemma MessageAsked(link: Link, msg: seq<byte>, parts: seq<seq<Event>>, room: nat, leftover: seq<byte>,
    delivered: seq<seq<byte>>) returns (buffer: seq<byte>)
    requires FramesFit(link.c, link.n) && !link.hasHandler
    requires msg != [] && |leftover| + |Payload(link.c, msg)| <= 300
    requires Chunked(FramesFrom(link.c, msg, 0), parts) && FirstFits(FramesFrom(link.c, msg, 0), room)
    ensures IsPadded(buffer, leftover + Payload(link.c, msg))
    ensures
      var st := State([], room, leftover, delivered, false);
      && Flattened(parts) != []
      && LastIs(AnswersOf(link, st, Flattened(parts)), |Flattened(parts)|, link.unmarshals(buffer))
    ensures
      var frames := FramesFrom(link.c, msg, 0);
      var end := Run(link, State([], room, leftover, delivered, false), Flattened(parts));
      && frames != []
      && end.line == [] && end.packet == [] && end.delivered == delivered && !end.overrun
      && end.remaining == if link.unmarshals(buffer) then link.n
         else (if |frames| == 1 then room else link.n) - |frames[|frames| - 1]|
  {
    hide Run, TotalChunks, Chunked, FramesFrom, FramesOf, AcceptAll, PacketsBetween, Payload, ValidPacket, Unasked;
    hide AnswersOf, Flattened, PacketAt, Frame, Joined, Calls, IsPadded, FramesFit;
    var c, st := link.c, State([], room, leftover, delivered, false);
    CAtLeastOne(c, link.n);
    NoChunks(c, msg);
    var last := TotalChunks(c, |msg|) - 1;
    var a, p := PacketsBetween(c, msg, 0, last), PacketAt(c, msg, last);
    FramesAre(c, msg, 0);
    BetweenLast(c, msg, 0, last);
    FramesOfAppend(c, a, p);
    ChunkedLast(FramesOf(c, a), Frame(c, p), parts);
    var mid := MiddleAnswered(link, st, msg, parts[..last]);
    PacketAtValid(c, msg, last);
    FrameFits(c, link.n, p);
    buffer := LastPacketAsked(link, mid, p, parts[last]);
    RunAppend(link, st, Flattened(parts[..last]), parts[last]);
    AnswersAppend(link, st, Flattened(parts[..last]), parts[last]);
  }

  /** The frames of a message but for the last: they only add their data, and every call answers true. */
  lemma MiddleAnswered(link: Link, st: State, msg: seq<byte>, parts: seq<seq<Event>>) returns (mid: State)
    requires FramesFit(link.c, link.n) && msg != [] && st.line == [] && !st.overrun
    requires |st.packet| + |Payload(link.c, msg)| <= 300 && TotalChunks(link.c, |msg|) >= 1
    requires
      var last := TotalChunks(link.c, |msg|) - 1;
      && Chunked(FramesOf(link.c, PacketsBetween(link.c, msg, 0, last)), parts)
      && FirstFits(FramesOf(link.c, PacketsBetween(link.c, msg, 0, last)), st.remaining)
    ensures
      var last := TotalChunks(link.c, |msg|) - 1;
      && mid == Run(link, st, Flattened(parts))
      && mid.line == [] && !mid.overrun && mid.delivered == st.delivered
      && mid.remaining == (if last == 0 then st.remaining else link.n)
      && mid.packet + PacketAt(link.c, msg, last).data == st.packet + Payload(link.c, msg)
      && PacketAt(link.c, msg, last).flag in {2, 3}
      && LastIs(AnswersOf(link, st, Flattened(parts)), |Flattened(parts)|, true)
  {
    hide Run, TotalChunks, Chunked, FramesOf, AcceptAll, PacketsBetween, Payload, ValidPacket, Unasked, FirstFits;
    hide AnswersOf, Flattened, PacketAt, FramesFit, ChunkFlag;
    CAtLeastOne(link.c, link.n);
    var c, last := link.c, TotalChunks(link.c, |msg|) - 1;
    var a := PacketsBetween(c, msg, 0, last);
    MiddleUnasked(link, msg, last);
    PacketsValid(c, msg, 0, last);
    ProductZero(last, c);
    var at, end' := PacketData(c, msg, last);
    NextProduct(0, c);
    var start, end := MiddleTaken(link, st.(remaining := link.n), msg, 0, last);
    FlagOf(c, msg, last);
    LastFlag(c, |msg|, last);
    var load := Payload(c, msg);
    assert st.packet + load[start..end] + load[at..end'] == st.packet + load;
    PacketsArrive(link, st, a, parts);
    PacketsAnswered(link, st, a, parts);
    ChunkedCalls(FramesOf(c, a), parts);
    mid := Run(link, st, Flattened(parts));
    NoBytes(st.packet);
  }

  /** With an rx handler every call of a message that fits answers true. */
  lemma MessageAnswered(link: Link, msg: seq<byte>, parts: seq<seq<Event>>, room: nat, leftover: seq<byte>,
    delivered: seq<seq<byte>>)
    requires FramesFit(link.c, link.n) && link.hasHandler
    requires msg != [] && |leftover| + |Payload(link.c, msg)| <= 300
    requires Chunked(FramesFrom(link.c, msg, 0), parts) && FirstFits(FramesFrom(link.c, msg, 0), room)
    ensures
      var st := State([], room, leftover, delivered, false);
      LastIs(AnswersOf(link, st, Flattened(parts)), |Flattened(parts)|, true)
  {
    hide Run, TotalChunks, Chunked, FirstFits, FramesFrom, Padded, AcceptAll, PacketsBetween, Payload, ValidPacket;
    var c, st := link.c, State([], link.n, leftover, delivered, false);
    NoChunks(c, msg);
    FramesAre(c, msg, 0);
    PacketsValid(c, msg, 0, TotalChunks(c, |msg|));
    var at := TailTaken(link, st, msg, 0);
    PacketsAnswered(link, st.(remaining := room), PacketsBetween(c, msg, 0, TotalChunks(c, |msg|)), parts);
  }
}
