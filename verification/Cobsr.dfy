/** lib/cobs-c-0.5.0/cobsr.c: COBS/R, which may move the last data byte into the last code byte. */
module Cobsr {
  import opened Bytes
  import opened Cobs

  // ----- The encoding as a function -----

  /** The final block of a run: the last data byte takes the place of the code byte if it is at
      least as large. */
  function FinalBlock(run: seq<byte>): (x: seq<byte>)
    requires |run| <= MAX_RUN
    ensures |x| >= 1
  {
    if run != [] && run[|run| - 1] as int >= |run| + 1
    then [run[|run| - 1]] + run[..|run| - 1]
    else [(|run| + 1) as byte] + run
  }

  /** Complete blocks with the last one in its reduced form. */
  function Reduce(x: seq<byte>): (y: seq<byte>)
    requires Blocks(x) && x != []
    ensures y != []
    decreases |x|
  {
    if x[0] as int == |x| then FinalBlock(x[1..]) else x[..x[0] as int] + Reduce(x[x[0] as int..])
  }

  /** The COBS/R encoding of s. */
  function EncR(s: seq<byte>): seq<byte> {
    EncRoundTrip(s);
    Reduce(Enc(s))
  }

  /** The code byte of the last block. */
  function FinalCode(x: seq<byte>): byte
    requires Blocks(x) && x != []
    decreases |x|
  {
    if x[0] as int == |x| then x[0] else FinalCode(x[x[0] as int..])
  }

  /** Complete blocks end in one last block. */
  lemma {:induction false} LastBlock(x: seq<byte>) returns (a: seq<byte>, run: seq<byte>)
    requires Blocks(x) && x != []
    ensures ZeroFree(run) && |run| <= MAX_RUN && Blocks(a)
    ensures x == a + Block(run, []) && Close(x) == Open(a) + run
    ensures Reduce(x) == a + FinalBlock(run) && FinalCode(x) as int == |run| + 1
    decreases |x|
  {
    var first, b := BlockSplit(x);
    BlockFront(first, b);
    ReduceFront(first, b);
    hide Blocks, Open, Close, Reduce, FinalCode, FinalBlock;
    NoBlocks();
    if b == [] {
      a, run := [], first;
      NoBytes(Block(run, []));
      NoBytes(run);
      NoBytes(FinalBlock(run));
    } else {
      var a';
      a', run := LastBlock(b);
      a := Block(first, a');
      BlockFront(first, a');
      BlockAppend(first, a', Block(run, []));
      BlockAppend(first, a', FinalBlock(run));
      Assoc(first + Gap(first), Open(a'), run);
    }
  }

  lemma ReduceFront(run: seq<byte>, y: seq<byte>)
    requires ZeroFree(run) && |run| <= MAX_RUN && Blocks(y) && Blocks(Block(run, y))
    ensures Reduce(Block(run, y)) == if y == [] then FinalBlock(run) else Block(run, Reduce(y))
    ensures FinalCode(Block(run, y)) as int == if y == [] then |run| + 1 else FinalCode(y) as int
  {
    var x := Block(run, y);
    assert x[x[0] as int..] == y;
    if y == [] {
      assert x[1..] == run;
    } else {
      assert x[..x[0] as int] == [(|run| + 1) as byte] + run;
    }
  }

  // ----- The decoder -----

  /** The flags one turn of the decoder's loop raises before it knows what follows. */
  function TurnStatusR(x: seq<byte>, room: nat): set<DecodeFlag>
    requires x != [] && x[0] != 0
  {
    Flag(Min(x[0] as int - 1, |x| - 1) > room, DecodeOutBufferOverflow) +
    Flag(!ZeroFree(x[1..TurnLen(x, room) + 1]), DecodeZeroByteInInput)
  }

  /** The zero a block that is not the last stands for, by its code byte. */
  function GapR(code: byte): seq<byte> { if code == 0xFF then [] else [0] }

  /** What cobsr_decode makes of the input from a code byte on, with room bytes left to write. A
      full block cut short by the output buffer does not end the loop. */
  function DecodeRFrom(x: seq<byte>, room: nat): (d: Decoding)
    ensures |d.out| <= room
    decreases |x|
  {
    if x == [] then Decoding([], {})
    else if x[0] == 0 then Decoding([], {DecodeZeroByteInInput})
    else
      var n, status := TurnLen(x, room), TurnStatusR(x, room);
      var run := x[1..n + 1];
      if x[0] as int > |x| then
        if n == room then Decoding(run, status + {DecodeOutBufferOverflow})
        else Decoding(run + [x[0]], status)
      else if x[0] as int == |x| then Decoding(run, status)
      else if x[0] != 0xFF && n == room then Decoding(run, status + {DecodeOutBufferOverflow})
      else
        var gap := GapR(x[0]);
        var d := DecodeRFrom(x[n + 1..], room - n - |gap|);
        Decoding(run + gap + d.out, status + d.status)
  }

  lemma DecodeRFront(run: seq<byte>, y: seq<byte>, room: nat)
    requires ZeroFree(run) && |run| <= MAX_RUN && y != [] && room >= |run| + |Gap(run)|
    ensures
      var d := DecodeRFrom(y, room - |run| - |Gap(run)|);
      DecodeRFrom(Block(run, y), room) == Decoding(run + Gap(run) + d.out, d.status)
  {
    hide TurnLen, TurnStatusR;
    BlockTurnR(run, y, room);
  }

  lemma BlockTurnR(run: seq<byte>, y: seq<byte>, room: nat)
    requires ZeroFree(run) && |run| <= MAX_RUN && |run| <= room
    ensures TurnLen(Block(run, y), room) == |run| && TurnStatusR(Block(run, y), room) == {}
    ensures Block(run, y)[1..|run| + 1] == run && Block(run, y)[|run| + 1..] == y
  {
    BlockTurn(run, y, room);
  }

  lemma DecodeRFinal(run: seq<byte>, room: nat)
    requires ZeroFree(run) && |run| <= MAX_RUN && room >= |run|
    ensures DecodeRFrom(FinalBlock(run), room) == Decoding(run, {})
  {
    var x := FinalBlock(run);
    if run != [] && run[|run| - 1] as int >= |run| + 1 {
      assert x[1..|x|] == run[..|run| - 1];
      assert run == run[..|run| - 1] + [x[0]];
    } else {
      assert x[1..|x|] == run;
    }
  }

  lemma {:induction false} DecodeROpen(a: seq<byte>, y: seq<byte>, room: nat)
    requires Blocks(a) && y != [] && room >= |Open(a)|
    ensures
      var d := DecodeRFrom(y, room - |Open(a)|);
      DecodeRFrom(a + y, room) == Decoding(Open(a) + d.out, d.status)
    decreases |a|
  {
    hide *;
    NoBlocks();
    if a == [] {
      NoBytes(y);
      NoBytes(DecodeRFrom(y, room).out);
    } else {
      var run, b := BlockSplit(a);
      BlockFront(run, b);
      BlockAppend(run, b, y);
      var room' := room - |run| - |Gap(run)|;
      DecodeROpen(b, y, room');
      DecodeRFront(run, b + y, room);
      Assoc(run + Gap(run), Open(b), DecodeRFrom(y, room' - |Open(b)|).out);
    }
  }

  // ----- Main results -----

  /** Every COBS/R encoding decodes to its source in any buffer that holds the source. */
  lemma RoundTripR(s: seq<byte>, room: nat)
    requires room >= |s|
    ensures DecodeRFrom(EncR(s), room) == Decoding(s, {})
  {
    EncRoundTrip(s);
    var a, run := LastBlock(Enc(s));
    hide DecodeRFrom, Reduce, Open, Blocks, FinalBlock;
    DecodeROpen(a, FinalBlock(run), room);
    DecodeRFinal(run, room - |Open(a)|);
  }

  /** The COBS/R decoder reads plain COBS as well. */
  lemma PlainAccepted(x: seq<byte>, room: nat)
    requires Blocks(x) && x != [] && room >= |Close(x)|
    ensures DecodeRFrom(x, room) == Decoding(Close(x), {})
  {
    hide DecodeRFrom, Open, Close, Blocks, Reduce, FinalCode, FinalBlock;
    var a, run := LastBlock(x);
    DecodeRPlain(run, room - |Open(a)|);
    DecodeROpen(a, Block(run, []), room);
  }

  lemma DecodeRPlain(run: seq<byte>, room: nat)
    requires ZeroFree(run) && |run| <= MAX_RUN && room >= |run|
    ensures DecodeRFrom(Block(run, []), room) == Decoding(run, {})
  {
    var x := Block(run, []);
    assert x[1..|run| + 1] == run;
  }

  /** The encoding is zero-free and saves one byte over COBS exactly if the last source byte is at
      least the final COBS code byte. */
  lemma EncRSize(s: seq<byte>)
    ensures ZeroFree(EncR(s))
    ensures Blocks(Enc(s))
    ensures |EncR(s)| == |Enc(s)| - (if s != [] && s[|s| - 1] >= FinalCode(Enc(s)) then 1 else 0)
  {
    EncRoundTrip(s);
    var x := Enc(s);
    var a, run := LastBlock(x);
    hide Blocks, Enc, Open, Close, EndsFullThenOne, Reduce, FinalCode;
    ZeroFreeFinal(a, run);
    if run == [] {
      EmptyLastBlock(a, s);
    } else {
      assert s[|s| - 1] == run[|run| - 1];
    }
  }

  lemma ZeroFreeFinal(a: seq<byte>, run: seq<byte>)
    requires |run| <= MAX_RUN && ZeroFree(run) && ZeroFree(a + Block(run, []))
    ensures ZeroFree(a + FinalBlock(run))
  {
    ZeroFreeAppend(a, Block(run, []));
    ZeroFreeAppend(a, FinalBlock(run));
  }

  lemma EmptyLastBlock(a: seq<byte>, s: seq<byte>)
    requires Blocks(a) && Open(a) + [] == s
    requires Blocks(a + Block([], [])) && !EndsFullThenOne(a + Block([], []))
    ensures s == [] || s[|s| - 1] == 0
  {
    hide Blocks, Open, EndsFullThenOne, FinalCode;
    NoBytes(Open(a));
    assert Block([], []) == [1];
    if a == [] {
      NoBlocks();
    } else {
      EndsInZeroUnlessFull(a);
      if FinalCode(a) == 255 {
        FullThenOne(a);
      }
    }
  }

  /** The meaning of blocks followed by others ends in a zero unless the last block is full. */
  lemma {:induction false} EndsInZeroUnlessFull(a: seq<byte>)
    requires Blocks(a) && a != []
    ensures Open(a) != [] && (Open(a)[|Open(a)| - 1] == 0 <==> FinalCode(a) != 255)
    decreases |a|
  {
    var run, b := BlockSplit(a);
    BlockFront(run, b);
    ReduceFront(run, b);
    hide Blocks, Open, FinalCode;
    NoBlocks();
    if b != [] {
      EndsInZeroUnlessFull(b);
    } else if |run| == MAX_RUN {
      assert Open(a) == run;
      assert run[|run| - 1] != 0;
    } else {
      assert Open(a) == run + [0];
    }
  }

  lemma {:induction false} FullThenOne(a: seq<byte>)
    requires Blocks(a) && a != [] && FinalCode(a) == 255
    ensures Blocks(a + [1]) && EndsFullThenOne(a + [1])
    decreases |a|
  {
    var run, b := BlockSplit(a);
    ReduceFront(run, b);
    LoneOne();
    BlocksAppend(b, [1]);
    BlockAppend(run, b, [1]);
    BlockFront(run, b + [1]);
    hide *;
    if b != [] {
      FullThenOne(b);
    } else {
      NoBytes([1 as byte]);
    }
  }

  /** Every nonempty zero-free string is a valid COBS/R encoding. */
  lemma {:induction false} EveryStringDecodes(x: seq<byte>, room: nat)
    requires ZeroFree(x) && x != [] && room >= |x|
    ensures DecodeRFrom(x, room).status == {}
    decreases |x|
  {
    hide DecodeRFrom;
    var n := Min(x[0] as int - 1, |x| - 1);
    OneTurn(x, room);
    if n < |x| - 1 {
      ZeroFreeSlice(x, n + 1, |x|);
      EveryStringDecodes(x[n + 1..], room - n - |GapR(x[0])|);
    }
  }

  lemma OneTurn(x: seq<byte>, room: nat)
    requires ZeroFree(x) && x != [] && room >= |x|
    ensures
      var n := Min(x[0] as int - 1, |x| - 1);
      DecodeRFrom(x, room).status ==
        if n == |x| - 1 then {}
        else DecodeRFrom(x[n + 1..], room - n - |GapR(x[0])|).status
  {
    var n := Min(x[0] as int - 1, |x| - 1);
    ZeroFreeSlice(x, 1, n + 1);
    assert TurnLen(x, room) == n && TurnStatusR(x, room) == {};
  }

  /** No input overflows a buffer of its own length, which is COBSR_DECODE_DST_BUF_LEN_MAX. */
  lemma {:induction false} DecodeRMaxSuffices(x: seq<byte>, room: nat)
    requires room >= |x|
    ensures DecodeOutBufferOverflow !in DecodeRFrom(x, room).status
    decreases |x|
  {
    if x != [] && x[0] != 0 {
      var n := Min(x[0] as int - 1, |x| - 1);
      if n < |x| - 1 {
        DecodeRMaxSuffices(x[n + 1..], room - n - |GapR(x[0])|);
      }
    }
  }

  // ----- The encoder -----

  /** What a COBS/R encoder call promises: out is what it wrote for source s with room bytes of
      space. Overflow is decided by the size of the plain COBS form; what is written then still
      decodes to a prefix of the source, and fills the buffer up to one byte. */
  ghost predicate EncodedR(s: seq<byte>, room: nat, result: EncodeResult, out: seq<byte>, used: nat) {
    && result.status == (if |Enc(s)| <= room then {} else {EncodeOutBufferOverflow})
    && (|Enc(s)| <= room ==> used == |s| && out == EncR(s))
    && (|Enc(s)| > room ==>
        && room - 1 <= |out| <= room && used <= |s|
        && DecodeRFrom(out, |s|) == Decoding(s[..used], {})
        && (room > 0 ==> used < |s| && |Enc(s[..used])| <= room < |Enc(s[..used + 1])|))
  }

  /** cobsr_encode. Nothing is written at or past dstLen, nor past the byte after the output. */
  method CobsrEncode(dst: array?<byte>, dstLen: nat, src: array?<byte>, srcLen: nat)
    returns (result: EncodeResult, ghost used: nat)
    requires dst != null ==> dstLen <= dst.Length && dst != src
    requires src != null ==> srcLen <= src.Length
    modifies dst
    ensures dst == null || src == null ==>
      && result == EncodeResult(0, {EncodeNullPointer})
      && (dst != null ==> dst[..] == old(dst[..]))
    ensures dst != null && src != null ==>
      && result.outLen <= dstLen
      && (forall i :: Min(result.outLen + 1, dstLen) <= i < dst.Length ==> dst[i] == old(dst[i]))
      && EncodedR(src[..srcLen], dstLen, result, dst[..result.outLen], used)
  {
    if dst == null || src == null {
      return EncodeResult(0, {EncodeNullPointer}), 0;
    }
    hide Blocks, Open, Close, Enc, Reduce, DecodeRFrom, EncodedR, StandsFor, FinalBlock, Reading;
    var c, overflow;
    ghost var s, done, run;
    c, overflow, s, used, done, run := EncodeLoop(dst, dstLen, src, srcLen);
    LastOfRun(s[..used], done, run);
    var write := WriteFinalCode(dst, dstLen, c, done, run);
    var status := if overflow || c.code >= dstLen then {EncodeOutBufferOverflow} else {};
    result := EncodeResult(write, status);
    Finished(s, used, done, run, c.srcByte, dstLen, result, dst[..write]);
  }

  /** Writing the final code byte, plain or reduced. */
  method WriteFinalCode(dst: array<byte>, dstLen: nat, c: Cursor, ghost done: seq<byte>, ghost run: seq<byte>)
    returns (write: nat)
    requires dstLen <= dst.Length && At(c, dst, dstLen, done, run) && |run| <= MAX_RUN
    requires run != [] ==> run[|run| - 1] == c.srcByte
    modifies dst
    ensures write <= dstLen
    ensures forall i :: Min(write + 1, dstLen) <= i < dst.Length ==> dst[i] == old(dst[i])
    ensures dst[..write] == FinalForm(done, run, c.srcByte, dstLen)
  {
    if c.code >= dstLen {
      write := dstLen;
      assert dst[..write] == done;
    } else if c.srcByte < c.searchLen {
      write := c.write;
      PatchCode(dst, c.code, c.searchLen, done, run);
      assert dst[..write] == done + Block(run, []);
    } else {
      dst[c.code] := c.srcByte;
      write := c.write - 1;
      assert dst[..write] == if run == [] then done else done + [c.srcByte] + run[..|run| - 1];
    }
  }

  ghost function FinalForm(done: seq<byte>, run: seq<byte>, last: byte, room: nat): seq<byte>
    requires |run| <= MAX_RUN
  {
    if |done| >= room then done
    else if last as int < |run| + 1 then done + Block(run, [])
    else if run == [] then done
    else done + [last] + run[..|run| - 1]
  }

  /** The three ways the encoder ends, against what it promises. */
  lemma Finished(s: seq<byte>, read: nat, done: seq<byte>, run: seq<byte>, last: byte, room: nat,
                 result: EncodeResult, out: seq<byte>)
    requires read <= |s| && Reading(s[..read], done, run) && |run| <= MAX_RUN
    requires last == if read == 0 then 0 else s[read - 1]
    requires run == [] && last != 0 ==> done != [] && StandsFor(done, s[..read])
    requires result.status == {} ==>
      Enc(s) == done + Block(run, []) && read == |s| && (run == [] ==> last == 0) && |done| + 1 + |run| <= room
    requires result.status != {} ==>
      && result.status == {EncodeOutBufferOverflow} && |run| < MAX_RUN
      && (read < |s| || room == |s| == 0) && |done| + 1 + |run| >= room
    requires |done| >= room > 0 ==> run == [] && last != 0
    requires |done| <= room && (|done| < room ==> |done| + 1 + |run| <= room)
    requires room == 0 ==> done == [] && run == []
    requires out == FinalForm(done, run, last, room)
    ensures EncodedR(s, room, result, out, read)
  {
    hide Reading, Blocks, Open, Close, Enc, EncR, Reduce, DecodeRFrom, StandsFor, FinalForm, FinalBlock;
    var taken := s[..read];
    OutForm(taken, done, run, last, room, out);
    if result.status == {} {
      assert taken == s;
      FullOut(s, done, run);
    } else {
      if read < |s| {
        Overflowed(s, read, done, run, room);
      }
      OutDecodes(taken, done, run, last, room, out, |s|);
    }
  }

  lemma OutDecodes(taken: seq<byte>, done: seq<byte>, run: seq<byte>, last: byte, room: nat, out: seq<byte>, space: nat)
    requires Reading(taken, done, run) && space >= |taken| && |run| <= MAX_RUN
    requires run == [] && last != 0 ==> done != [] && StandsFor(done, taken)
    requires |done| >= room > 0 ==> run == [] && last != 0
    requires room == 0 ==> done == [] && run == []
    requires |done| <= room <= |done| + 1 + |run| && (|done| < room ==> |done| + 1 + |run| <= room)
    requires out == if |done| >= room || (run == [] && last != 0) then done else done + FinalBlock(run)
    ensures DecodeRFrom(out, space) == Decoding(taken, {})
    ensures room - 1 <= |out| <= room
  {
    hide Reading, StandsFor, DecodeRFrom;
    if |done| < room && (run != [] || last == 0) {
      ReducedDecodes(taken, done, run, space);
    } else {
      SplitDecodes(taken, done, run, space);
    }
  }

  lemma LastOfRun(taken: seq<byte>, done: seq<byte>, run: seq<byte>)
    requires Reading(taken, done, run)
    ensures run != [] ==> taken != [] && taken[|taken| - 1] == run[|run| - 1]
  {
  }

  lemma OutForm(taken: seq<byte>, done: seq<byte>, run: seq<byte>, last: byte, room: nat, out: seq<byte>)
    requires Reading(taken, done, run)
    requires last == if taken == [] then 0 else taken[|taken| - 1]
    requires out == FinalForm(done, run, last, room)
    ensures out == if |done| >= room || (run == [] && last != 0) then done else done + FinalBlock(run)
  {
    if run != [] {
      assert taken[|taken| - 1] == run[|run| - 1];
    }
    NoBytes([(|run| + 1) as byte] + run);
    assert run != [] ==> done + [last] + run[..|run| - 1] == done + ([last] + run[..|run| - 1]);
  }

  lemma FullOut(s: seq<byte>, done: seq<byte>, run: seq<byte>)
    requires Reading(s, done, run) && Enc(s) == done + Block(run, [])
    ensures EncR(s) == done + FinalBlock(run)
  {
    EncRoundTrip(s);
    ReduceAppend(done, run);
  }

  lemma {:induction false} ReduceAppend(a: seq<byte>, run: seq<byte>)
    requires Blocks(a) && ZeroFree(run) && |run| <= MAX_RUN && Blocks(a + Block(run, []))
    ensures Reduce(a + Block(run, [])) == a + FinalBlock(run)
    decreases |a|
  {
    NoBlocks();
    BlockFront(run, []);
    ReduceFront(run, []);
    hide Blocks, Reduce, FinalBlock, Block;
    if a == [] {
      NoBytes(Block(run, []));
      NoBytes(FinalBlock(run));
    } else {
      var first, b := BlockSplit(a);
      BlocksAppend(b, Block(run, []));
      ReduceAppend(b, run);
      BlockAppend(first, b, Block(run, []));
      BlockAppend(first, b, FinalBlock(run));
      ReduceFront(first, b + Block(run, []));
    }
  }

  lemma ReducedDecodes(taken: seq<byte>, done: seq<byte>, run: seq<byte>, room: nat)
    requires Reading(taken, done, run) && room >= |taken|
    ensures DecodeRFrom(done + FinalBlock(run), room) == Decoding(taken, {})
  {
    hide DecodeRFrom, FinalBlock, Open, Blocks;
    DecodeROpen(done, FinalBlock(run), room);
    DecodeRFinal(run, room - |Open(done)|);
  }

  lemma SplitDecodes(taken: seq<byte>, done: seq<byte>, run: seq<byte>, room: nat)
    requires Reading(taken, done, run) && run == [] && room >= |taken|
    requires done != [] ==> StandsFor(done, taken)
    ensures DecodeRFrom(done, room) == Decoding(taken, {})
  {
    NoBytes(Open(done));
    if done != [] {
      hide DecodeRFrom, Open, Blocks;
      PlainAccepted(done, room);
    }
  }

  // ----- The decoder loop -----

  /** Decoding the rest of the input completes what has been written. */
  ghost predicate ProgressR(rest: seq<byte>, out: seq<byte>, status: set<DecodeFlag>, room: nat, all: Decoding) {
    var d := DecodeRFrom(rest, room);
    all == Decoding(out + d.out, status + d.status)
  }

  lemma DecodeRUnfold(x: seq<byte>, room: nat)
    requires x != [] && x[0] != 0
    ensures
      var n, status := TurnLen(x, room), TurnStatusR(x, room);
      var run := x[1..n + 1];
      DecodeRFrom(x, room) ==
      if x[0] as int > |x| then
        if n == room then Decoding(run, status + {DecodeOutBufferOverflow})
        else Decoding(run + [x[0]], status)
      else if x[0] as int == |x| then Decoding(run, status)
      else if x[0] != 0xFF && n == room then Decoding(run, status + {DecodeOutBufferOverflow})
      else
        var gap := GapR(x[0]);
        var d := DecodeRFrom(x[n + 1..], room - n - |gap|);
        Decoding(run + gap + d.out, status + d.status)
  {
  }

  /** One turn of the decoder's loop. */
  lemma DecodeRTurn(rest: seq<byte>, out: seq<byte>, status: set<DecodeFlag>, room: nat, all: Decoding)
    requires rest != [] && rest[0] != 0 && ProgressR(rest, out, status, room, all)
    ensures
      var n, status' := TurnLen(rest, room), status + TurnStatusR(rest, room);
      var out' := out + rest[1..n + 1];
      if rest[0] as int > |rest| then
        if n == room then all == Decoding(out', status' + {DecodeOutBufferOverflow})
        else all == Decoding(out' + [rest[0]], status')
      else if rest[0] as int == |rest| then all == Decoding(out', status')
      else if rest[0] != 0xFF && n == room then all == Decoding(out', status' + {DecodeOutBufferOverflow})
      else
        var gap := GapR(rest[0]);
        ProgressR(rest[n + 1..], out' + gap, status', room - n - |gap|, all)
  {
    var n, raised := TurnLen(rest, room), TurnStatusR(rest, room);
    var run := rest[1..n + 1];
    DecodeRUnfold(rest, room);
    hide TurnLen, TurnStatusR, DecodeRFrom;
    SetAssoc(status, raised, {DecodeOutBufferOverflow});
    Assoc(out, run, [rest[0]]);
    if rest[0] as int < |rest| && (rest[0] == 0xFF || n < room) {
      var gap := GapR(rest[0]);
      var d := DecodeRFrom(rest[n + 1..], room - n - |gap|);
      Assoc(out, run, gap);
      Assoc(out, run + gap, d.out);
      SetAssoc(status, raised, d.status);
    }
  }

  /** Cutting the run to what the output has room for, and copying it. */
  method CopyFitting(dst: array<byte>, dstLen: nat, write: nat, src: array<byte>, read: nat, wanted: nat,
                     ghost rest: seq<byte>) returns (n: nat, raised: set<DecodeFlag>)
    requires write <= dstLen <= dst.Length && read + wanted <= src.Length
    requires dst == src ==> write <= read
    requires rest != [] && rest[0] != 0 && wanted == Min(rest[0] as int - 1, |rest| - 1)
    requires forall i :: read <= i < read + wanted ==> src[i] == rest[1 + i - read]
    modifies dst
    ensures n <= wanted && n == TurnLen(rest, dstLen - write) && raised == TurnStatusR(rest, dstLen - write)
    ensures dst[..write + n] == old(dst[..write]) + rest[1..n + 1]
    ensures forall i :: write + n <= i < dst.Length ==> dst[i] == old(dst[i])
  {
    raised := {};
    n := wanted;
    if n > dstLen - write {
      raised := raised + {DecodeOutBufferOverflow};
      n := dstLen - write;
    }
    assert src[read..read + n] == rest[1..n + 1];
    var zero := CopyRun(dst, write, src, read, n);
    assert dst[..write + n] == dst[..write] + dst[write..write + n];
    if zero {
      raised := raised + {DecodeZeroByteInInput};
    }
  }

  /** A run that more input follows, and the zero after it; full tells that the zero did not fit. */
  method InnerRun(dst: array<byte>, dstLen: nat, write0: nat, src: array<byte>, read: nat,
                  lenCode: byte, status0: set<DecodeFlag>, ghost rest: seq<byte>, ghost all: Decoding)
    returns (n: nat, write: nat, status: set<DecodeFlag>, full: bool)
    requires write0 <= dstLen <= dst.Length && write0 < read <= src.Length
    requires 0 < lenCode as int < |rest| && rest[0] == lenCode && read + |rest| - 1 <= src.Length
    requires forall i :: read <= i < read + |rest| - 1 ==> src[i] == rest[1 + i - read]
    requires ProgressR(rest, dst[..write0], status0, dstLen - write0, all)
    modifies dst
    ensures n <= lenCode as int - 1 && write0 <= write <= dstLen && write <= read + n
    ensures full ==> all == Decoding(dst[..write], status)
    ensures !full ==> ProgressR(rest[n + 1..], dst[..write], status, dstLen - write, all)
    ensures forall i :: write <= i < dst.Length ==> dst[i] == old(dst[i])
  {
    hide DecodeRFrom, TurnStatusR, ProgressR, TurnLen;
    ghost var out := dst[..write0];
    DecodeRTurn(rest, out, status0, dstLen - write0, all);
    var raised;
    n, raised := CopyFitting(dst, dstLen, write0, src, read, lenCode as int - 1, rest);
    status, write, full := status0 + raised, write0 + n, false;
    if lenCode != 0xFF {
      if write >= dstLen {
        status := status + {DecodeOutBufferOverflow};
        full := true;
      } else {
        dst[write] := 0;
        write := write + 1;
        assert dst[..write] == out + rest[1..n + 1] + [0];
      }
    } else {
      NoBytes(dst[..write]);
    }
  }

  /** The last run of the input, and the byte its code stands for if the code is too large. */
  method FinalRun(dst: array<byte>, dstLen: nat, write0: nat, src: array<byte>, read: nat, remaining: nat,
                  lenCode: byte, status0: set<DecodeFlag>, ghost rest: seq<byte>, ghost all: Decoding)
    returns (write: nat, status: set<DecodeFlag>)
    requires write0 <= dstLen <= dst.Length && read + remaining <= src.Length
    requires dst == src ==> write0 <= read
    requires lenCode != 0 && lenCode as int - 1 >= remaining
    requires |rest| == remaining + 1 && rest[0] == lenCode
    requires forall i :: read <= i < read + remaining ==> src[i] == rest[1 + i - read]
    requires ProgressR(rest, dst[..write0], status0, dstLen - write0, all)
    modifies dst
    ensures write0 <= write <= dstLen
    ensures all == Decoding(dst[..write], status)
    ensures forall i :: write <= i < dst.Length ==> dst[i] == old(dst[i])
  {
    hide DecodeRFrom, TurnStatusR, ProgressR, TurnLen;
    ghost var out := dst[..write0];
    DecodeRTurn(rest, out, status0, dstLen - write0, all);
    var n, raised := CopyFitting(dst, dstLen, write0, src, read, remaining, rest);
    status := status0 + raised;
    write := write0 + n;
    if lenCode as int - 1 > remaining {
      if write >= dstLen {
        status := status + {DecodeOutBufferOverflow};
      } else {
        dst[write] := lenCode;
        write := write + 1;
        assert dst[..write] == out + rest[1..n + 1] + [lenCode];
      }
    }
  }

  method DecodeRLoop(dst: array<byte>, dstLen: nat, src: array<byte>, srcLen: nat)
    returns (write: nat, status: set<DecodeFlag>)
    requires dstLen <= dst.Length && 0 < srcLen <= src.Length
    modifies dst
    ensures write <= dstLen
    ensures Decoding(dst[..write], status) == DecodeRFrom(old(src[..srcLen]), dstLen)
    ensures forall i :: write <= i < dst.Length ==> dst[i] == old(dst[i])
  {
    hide DecodeRFrom, TurnStatusR, ProgressR, TurnLen;
    ghost var x := src[..srcLen];
    ghost var all := DecodeRFrom(x, dstLen);
    var read;
    read, write, status := 0, 0, {};
    assert x[0..] == x && dst[..0] == [];
    DecodeRStart(x, dstLen);
    while true
      invariant 0 <= write <= read < srcLen && write <= dstLen
      invariant ProgressR(x[read..], dst[..write], status, dstLen - write, all)
      invariant forall i :: write <= i < dst.Length ==> dst[i] == old(dst[i])
      invariant forall i :: read <= i < srcLen ==> src[i] == x[i]
      decreases srcLen - read
    {
      ghost var rest := x[read..];
      var lenCode := src[read];
      read := read + 1;
      if lenCode == 0 {
        DecodeRZeroCode(rest, dst[..write], status, dstLen - write, all);
        status := status + {DecodeZeroByteInInput};
        assert all == Decoding(dst[..write], status);
        break;
      }
      var remainingInput := srcLen - read;
      if lenCode as int - 1 < remainingInput {
        var n, full;
        n, write, status, full := InnerRun(dst, dstLen, write, src, read, lenCode, status, rest, all);
        if full {
          break;
        }
        read := read + n;
        assert x[read..] == rest[n + 1..];
      } else {
        write, status := FinalRun(dst, dstLen, write, src, read, remainingInput, lenCode, status, rest, all);
        break;
      }
    }
  }

  lemma DecodeRZeroCode(rest: seq<byte>, out: seq<byte>, status: set<DecodeFlag>, room: nat, all: Decoding)
    requires rest != [] && rest[0] == 0 && ProgressR(rest, out, status, room, all)
    ensures all == Decoding(out, status + {DecodeZeroByteInInput})
  {
  }

  lemma DecodeRStart(x: seq<byte>, room: nat)
    ensures ProgressR(x, [], {}, room, DecodeRFrom(x, room))
  {
    var d := DecodeRFrom(x, room);
    assert [] + d.out == d.out && {} + d.status == d.status;
  }

  /** cobsr_decode, separately or in place. */
  method CobsrDecode(dst: array?<byte>, dstLen: nat, src: array?<byte>, srcLen: nat)
    returns (result: DecodeResult)
    requires dst != null ==> dstLen <= dst.Length
    requires src != null ==> srcLen <= src.Length
    modifies dst
    ensures dst == null || src == null ==>
      && result == DecodeResult(0, {DecodeNullPointer})
      && (dst != null ==> dst[..] == old(dst[..]))
    ensures dst != null && src != null ==>
      && result.outLen <= dstLen
      && Decoding(dst[..result.outLen], result.status) == DecodeRFrom(old(src[..srcLen]), dstLen)
      && forall i :: result.outLen <= i < dst.Length ==> dst[i] == old(dst[i])
  {
    if dst == null || src == null {
      return DecodeResult(0, {DecodeNullPointer});
    }
    var write, status := 0, {};
    if srcLen != 0 {
      write, status := DecodeRLoop(dst, dstLen, src, srcLen);
    }
    result := DecodeResult(write, status);
  }
}
