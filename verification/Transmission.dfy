/** A sender of src/PacketSerial.c whose tx handler passes what it is given to a receiver, in pieces of any
    size, as a serial line does.

    Here the methods of both sides meet: what send hands over is cut up and fed to process, and the
    receiver's buffers and deliveries are those the runs of EndToEnd have. */
module Transmission {
  import opened Bytes
  import opened Packets
  import PacketSerial
  import opened Reception
  import opened Receiver
  import opened EndToEnd
  import opened Answers
  import Limits

  ghost predicate Delivers(events: seq<Event>, chunks: seq<seq<byte>>) {
    |events| == |chunks| && forall i :: 0 <= i < |chunks| ==> events[i].chunk == chunks[i]
  }

  /** A receiver that is handed one chunk after the other goes through such a run, and answers as it does. */
  method ProcessAll(r: Receiver, chunks: seq<seq<byte>>) returns (answers: seq<bool>, ghost events: seq<Event>)
    requires r.Valid() && forall i :: 0 <= i < |chunks| ==> chunks[i] != []
    modifies r, r.rxBuffer, r.packetBuffer
    ensures r.Valid() && Calls(events) && Delivers(events, chunks)
    ensures
      var end := Run(r.link, old(r.Now()), events);
      && (r.overrun <==> end.overrun)
      && (!r.overrun ==> r.Now() == end && answers == AnswersOf(r.link, old(r.Now()), events))
  {
    hide Run, Step, AnswersOf;
    ghost var st := r.Now();
    answers, events := [], [];
    NothingRuns(r.link, st);
    NoAnswers(r.link, st);
    var i := 0;
    while i < |chunks|
      invariant 0 <= i <= |chunks| && r.Valid() && Calls(events) && Delivers(events, chunks[..i])
      invariant r.overrun <==> Run(r.link, st, events).overrun
      invariant !r.overrun ==> r.Now() == Run(r.link, st, events) && answers == AnswersOf(r.link, st, events)
    {
      ghost var before := r.Now();
      ghost var junk;
      var ok;
      ok, junk := r.Process(chunks[i]);
      ghost var e := Event(chunks[i], junk);
      if before.overrun {
        OverrunStays(r.link, before, chunks[i], junk);
      }
      OneRun(r.link, Run(r.link, st, events), e);
      OneAnswer(r.link, Run(r.link, st, events), e);
      RunAppend(r.link, st, events, [e]);
      AnswersAppend(r.link, st, events, [e]);
      answers, events := answers + [ok], events + [e];
      i := i + 1;
    }
    assert chunks[..i] == chunks;
  }

  /** The size of the next piece, of n bytes. */
  function Piece(wanted: nat, n: nat): (k: nat)
    requires n > 0
    ensures 1 <= k <= n
  {
    if wanted == 0 then 1 else if wanted < n then wanted else n
  }

  function AllJoined(chunks: seq<seq<byte>>): seq<byte> {
    if chunks == [] then [] else chunks[0] + AllJoined(chunks[1..])
  }

  lemma {:induction false} JoinedAppend(chunks: seq<seq<byte>>, chunk: seq<byte>)
    ensures AllJoined(chunks + [chunk]) == AllJoined(chunks) + chunk
    decreases |chunks|
  {
    if chunks == [] {
      assert [chunk][1..] == [];
      NoBytes(chunk);
    } else {
      assert (chunks + [chunk])[1..] == chunks[1..] + [chunk];
      JoinedAppend(chunks[1..], chunk);
      Assoc(chunks[0], AllJoined(chunks[1..]), chunk);
    }
  }

  lemma {:induction false} DeliveredJoined(events: seq<Event>, chunks: seq<seq<byte>>)
    requires Delivers(events, chunks)
    ensures Joined(events) == AllJoined(chunks)
    decreases |chunks|
  {
    if chunks != [] {
      DeliveredJoined(events[1..], chunks[1..]);
    }
  }

  /** A frame in pieces. */
  method Cut(frame: seq<byte>, pieces: nat -> nat) returns (chunks: seq<seq<byte>>)
    ensures AllJoined(chunks) == frame && forall i :: 0 <= i < |chunks| ==> chunks[i] != []
  {
    chunks := [];
    var at := 0;
    assert frame[..0] == [];
    while at < |frame|
      invariant 0 <= at <= |frame| && AllJoined(chunks) == frame[..at]
      invariant forall i :: 0 <= i < |chunks| ==> chunks[i] != []
    {
      var end := at + Piece(pieces(at), |frame| - at);
      JoinedAppend(chunks, frame[at..end]);
      assert frame[..at] + frame[at..end] == frame[..end];
      chunks := chunks + [frame[at..end]];
      at := end;
    }
    assert frame[..at] == frame;
  }

  /** The frames so far have been fed to the receiver. */
  ghost predicate Fed(link: Link, st: State, frames: seq<seq<byte>>, parts: seq<seq<Event>>, now: State,
    answers: seq<bool>)
  {
    && CallsOnly(parts) && Chunked(frames, parts)
    && var end := Run(link, st, Flattened(parts));
       && (now.overrun <==> end.overrun)
       && (!now.overrun ==> now == end && answers == AnswersOf(link, st, Flattened(parts)))
  }

  lemma NothingFed(link: Link, st: State)
    ensures Fed(link, st, [], [], st, [])
  {
    NothingRuns(link, st);
    NoAnswers(link, st);
  }

  lemma OneMoreFed(link: Link, st: State, frames: seq<seq<byte>>, parts: seq<seq<Event>>, before: State,
    frame: seq<byte>, events: seq<Event>, now: State, answers: seq<bool>, more: seq<bool>)
    requires Fed(link, st, frames, parts, before, answers) && Calls(events) && Joined(events) == frame
    requires
      var end := Run(link, before, events);
      && (now.overrun <==> end.overrun)
      && (!now.overrun ==> now == end && more == AnswersOf(link, before, events))
    ensures Fed(link, st, frames + [frame], parts + [events], now, answers + more)
  {
    hide Run, Calls, Joined, AnswersOf;
    FlattenedAppend(parts, events);
    RunAppend(link, st, Flattened(parts), events);
    AnswersAppend(link, st, Flattened(parts), events);
    if before.overrun {
      OverrunEnds(link, before, events);
      OverrunEnds(link, Run(link, st, Flattened(parts)), events);
    }
  }

  /** Every frame, in pieces of its own, to process. */
  method Feed(r: Receiver, frames: seq<seq<byte>>, pieces: (nat, nat) -> nat)
    returns (answers: seq<bool>, ghost parts: seq<seq<Event>>)
    requires r.Valid()
    modifies r, r.rxBuffer, r.packetBuffer
    ensures r.Valid() && Fed(r.link, old(r.Now()), frames, parts, r.Now(), answers)
  {
    hide Fed, Run, Calls, Delivers, AnswersOf;
    ghost var st := r.Now();
    answers, parts := [], [];
    NothingFed(r.link, st);
    var i := 0;
    while i < |frames|
      invariant 0 <= i <= |frames| && r.Valid()
      invariant Fed(r.link, st, frames[..i], parts, r.Now(), answers)
    {
      ghost var before := r.Now();
      var chunks := Cut(frames[i], at => pieces(i, at));
      var more;
      ghost var events;
      more, events := ProcessAll(r, chunks);
      DeliveredJoined(events, chunks);
      OneMoreFed(r.link, st, frames[..i], parts, before, frames[i], events, r.Now(), answers, more);
      assert frames[..i + 1] == frames[..i] + [frames[i]];
      answers, parts := answers + more, parts + [events];
      i := i + 1;
    }
    assert frames[..i] == frames;
  }

  /** send and process together: a nonempty message for a receiver between frames with room for the first. If it
      fits behind what the reassembly buffer holds, that buffer is empty afterwards. With an rx handler the message
      is delivered once, behind what was held and followed by zeros, every call answers true, and all of rx_buffer
      is room. Without one nothing is delivered; unmarshal is asked about the same 300 bytes, and its answer is that
      of the last call. Any other message overruns the buffer. */
  method Transmit(r: Receiver, msg: seq<byte>, pieces: (nat, nat) -> nat)
    returns (answers: seq<bool>, ghost buffer: seq<byte>)
    requires r.Valid() && FramesFit(r.link.c, r.link.n) && msg != []
    requires r.pRx == 0 && !r.overrun && FirstFits(FramesFrom(r.link.c, msg, 0), r.remaining)
    modifies r, r.rxBuffer, r.packetBuffer
    ensures r.Valid()
    ensures r.overrun <==> |old(r.Now().packet)| + |Payload(r.link.c, msg)| > 300
    ensures !r.overrun ==> IsPadded(buffer, old(r.Now().packet) + Payload(r.link.c, msg))
    ensures !r.overrun ==> r.pRx == 0 && r.offset == 0
    ensures !r.overrun && r.link.hasHandler ==>
      r.delivered == old(r.delivered) + [buffer] && r.remaining == r.link.n && LastIs(answers, |answers|, true)
    ensures !r.overrun && !r.link.hasHandler ==>
      && r.delivered == old(r.delivered)
      && answers != [] && LastIs(answers, |answers|, r.link.unmarshals(buffer))
      && (r.link.unmarshals(buffer) ==> r.remaining == r.link.n)
  {
    hide Run, Chunked, FirstFits, FramesFrom, FramesFit, Payload, Padded, AnswersOf, IsPadded, LastIs;
    ghost var st := r.Now();
    CAtLeastOne(r.link.c, r.link.n);
    assert st == State([], r.remaining, st.packet, r.delivered, false);
    var _, frames := PacketSerial.Send(r.link.c, r.link.n, msg, true, _ => true);
    ghost var parts;
    answers, parts := Feed(r, frames, pieces);
    Limits.MessageOverruns(r.link, msg, parts, st.remaining, st.packet, st.delivered);
    buffer := [];
    if !r.overrun {
      if r.link.hasHandler {
        buffer := Padded(st.packet + Payload(r.link.c, msg));
        PaddedForm(st.packet + Payload(r.link.c, msg));
        MessageAfterLeftover(r.link, msg, parts, st.remaining, st.packet, st.delivered);
        MessageAnswered(r.link, msg, parts, st.remaining, st.packet, st.delivered);
        CountIs(answers, |Flattened(parts)|, true);
      } else {
        buffer := MessageAsked(r.link, msg, parts, st.remaining, st.packet, st.delivered);
        CountIs(answers, |Flattened(parts)|, r.link.unmarshals(buffer));
      }
    }
  }
}
