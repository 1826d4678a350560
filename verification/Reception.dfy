/** A step of the receiver of src/PacketSerial.c, on an abstract state. */
module Reception {
  import opened Bytes
  import opened Powers
  import opened PbWire
  import opened PbTypes
  import opened PbDecode
  import opened PbUnknown
  import Cobs
  import opened Packets

  // process decodes as many bytes as it received, though cobs_decode writes fewer: the last part says when
  // what lies behind them matters.

  /** What stays fixed: the chunk size, the size of rx_buffer (Packet_size + 1), whether an rx handler
      is registered, and what ProtoBuff.unmarshal says of a reassembled buffer otherwise. */
  datatype Link = Link(c: nat, n: nat, hasHandler: bool, unmarshals: seq<byte> -> bool)

  /** line is rx_buffer before p_rx_buffer, packet is packet_buffer before packet_buffer_offset, and
      delivered lists the calls of the rx handler. Packets that do not fit packet_buffer overrun it;
      the code does not check, and nothing is said of it from then on. */
  datatype State = State(
    line: seq<byte>, remaining: nat, packet: seq<byte>, delivered: seq<seq<byte>>, overrun: bool)

  /** The index of the first zero: strlen of a string that has one. */
  function NulAt(s: seq<byte>): (n: nat)
    ensures n <= |s| && ZeroFree(s[..n])
    ensures n < |s| ==> s[n] == 0
  {
    if s == [] || s[0] == 0 then 0
    else
      assert forall i :: 0 < i <= NulAt(s[1..]) ==> s[i] == s[1..][i - 1];
      1 + NulAt(s[1..])
  }

  /** strncpy: nothing behind a zero is copied, zeros take its place. */
  function Copied(chunk: seq<byte>): (s: seq<byte>)
    ensures |s| == |chunk|
  {
    chunk[..NulAt(chunk)] + Zeros(|chunk| - NulAt(chunk))
  }

  /** n bytes of memory from position at on. */
  function Memory(junk: nat -> byte, at: nat, n: nat): (s: seq<byte>)
    ensures |s| == n && forall i :: 0 <= i < n ==> s[i] == junk(at + i)
  {
    seq(n, i requires 0 <= i => junk(at + i))
  }

  /** decoded_data_array: what cobs_decode writes, and behind it what the memory held. */
  function Decoded(body: seq<byte>, junk: nat -> byte): (data: seq<byte>)
    ensures |data| == |body|
  {
    var out := Cobs.DecodeFrom(body, |body|).out;
    out + Memory(junk, |out|, |body| - |out|)
  }

  /** pb_decode of the delimited packet at the front of data. */
  function DecodedPacket(c: nat, data: seq<byte>): Option<Message> {
    if DelimitedEnd(data).None? then None
    else
      match DecMessage(PacketFields(c), ZeroMessage(PacketFields(c)), Delimited(data))
      case None => None
      case Some(m) => if IsPacket(m) then Some(m) else None
  }

  function Padded(packet: seq<byte>): seq<byte>
    requires |packet| <= PACKET_BUFFER_SIZE
  {
    packet + Zeros(PACKET_BUFFER_SIZE - |packet|)
  }

  /** packet_parser on a decoded packet's data and flag. */
  function Accept(link: Link, st: State, data: seq<byte>, flag: int): (State, bool) {
    if |st.packet| + |data| > PACKET_BUFFER_SIZE then (st.(overrun := true), true)
    else
      var packet := st.packet + data;
      if flag == FLAG_LAST || flag == FLAG_FIRSTLAST then
        if link.hasHandler then (st.(packet := [], delivered := st.delivered + [Padded(packet)]), true)
        else (st.(packet := []), link.unmarshals(Padded(packet)))
      else (st.(packet := packet), true)
  }

  /** explicit_unmarshal with packet_parser as the callback. */
  function Parse(link: Link, st: State, data: seq<byte>): (State, bool) {
    match DecodedPacket(link.c, data)
    case None => (st, false)
    case Some(m) => Accept(link, st, m.slots[0].value.bytes, m.slots[3].value.n)
  }

  /** The end of a frame: success makes all of rx_buffer available again, failure does not. */
  function Complete(link: Link, st: State, junk: nat -> byte): (State, bool) {
    var (parsed, ok) := Parse(link, st, Decoded(st.line[..NulAt(st.line)], junk));
    (parsed.(line := [], remaining := if ok then link.n else st.remaining), ok)
  }

  /** process: the new state and the return value. */
  function Step(link: Link, st: State, chunk: seq<byte>, junk: nat -> byte): (State, bool)
    requires chunk != []
  {
    if |chunk| > st.remaining then (st, false)
    else
      var taken := st.(line := st.line + Copied(chunk), remaining := st.remaining - |chunk|);
      if chunk[|chunk| - 1] != 0 then (taken, true) else Complete(link, taken, junk)
  }

  lemma {:induction false} NulUnique(s: seq<byte>, n: nat)
    requires n <= |s| && ZeroFree(s[..n]) && (n < |s| ==> s[n] == 0)
    ensures NulAt(s) == n
  {
    if n > 0 {
      assert s[..n][0] != 0;
      assert s[1..][..n - 1] == s[..n][1..];
      NulUnique(s[1..], n - 1);
    }
  }

  lemma {:induction false} NulBefore(s: seq<byte>, k: nat)
    requires k < |s| && s[k] == 0
    ensures NulAt(s) <= k
  {
    if s[0] != 0 {
      NulBefore(s[1..], k - 1);
    }
  }

  lemma CopiedEnd(chunk: seq<byte>)
    requires chunk != [] && chunk[|chunk| - 1] == 0
    ensures Copied(chunk)[|chunk| - 1] == 0
  {
    NulBefore(chunk, |chunk| - 1);
  }

  // ----- Memory that was never written -----

  /** The bytes explicit_unmarshal hands to packet_parser, if it gets that far. */
  function Handed(body: seq<byte>, junk: nat -> byte): Option<seq<byte>> {
    var data := Decoded(body, junk);
    if DelimitedEnd(data).None? then None else Some(Delimited(data))
  }

  /** What cobs_decode writes for a body. */
  function Written(body: seq<byte>): (out: seq<byte>)
    ensures |out| <= |body|
  {
    Cobs.DecodeFrom(body, |body|).out
  }

  /** The delimited packet ends within what cobs_decode wrote, or beyond all of the array. If the
      length itself is cut off, the earliest it can end is with a zero byte. */
  predicate JunkFree(body: seq<byte>) {
    var out := Written(body);
    match DecVarint32(out)
    case Some((size, k)) => k + size <= |out| || k + size > |body|
    case None =>
      match DecVarint32(out + [0])
      case None => true
      case Some((size, k)) => k + size > |body|
  }

  ghost predicate SameForAllJunk(body: seq<byte>) {
    forall junk: nat -> byte, junk': nat -> byte :: Handed(body, junk) == Handed(body, junk')
  }

  // ----- Lengths that run out of bytes -----

  lemma {:induction false} OrGrows(a: nat, b: nat)
    ensures BitOr(a, b) >= a && BitOr(a, 0) == a
    decreases a + b
  {
    if a > 0 && b > 0 {
      OrGrows(a / 2, b / 2);
    }
  }

  lemma {:induction false} LoopGrows(s: seq<byte>, bitpos: nat, result: nat)
    requires Varint32Loop(s, bitpos, result).Some?
    ensures Varint32Loop(s, bitpos, result).value.0 >= result
    decreases |s|
  {
    hide BitOr, Pow2;
    var c := s[0] as nat % 128 * Pow2(bitpos) % B32;
    OrGrows(result, c);
    if s[0] >= 128 {
      LoopGrows(s[1..], (bitpos + 7) % FAST8, if bitpos >= 32 then result else BitOr(result, c));
    }
  }

  lemma {:induction false} LoopLast(s: seq<byte>, bitpos: nat, result: nat)
    requires Varint32Loop(s, bitpos, result).Some?
    ensures s[Varint32Loop(s, bitpos, result).value.1 - 1] < 128
    decreases |s|
  {
    hide BitOr, Pow2;
    if s[0] >= 128 {
      var c := s[0] as nat % 128 * Pow2(bitpos) % B32;
      LoopLast(s[1..], (bitpos + 7) % FAST8, if bitpos >= 32 then result else BitOr(result, c));
    }
  }

  /** A length that goes on behind s could also have ended there with a zero, and would be no larger. */
  lemma {:induction false} LoopCut(s: seq<byte>, t: seq<byte>, bitpos: nat, result: nat)
    requires Varint32Loop(s + t, bitpos, result).Some? && Varint32Loop(s + t, bitpos, result).value.1 > |s|
    ensures Varint32Loop(s + [0], bitpos, result).Some?
    ensures Varint32Loop(s + [0], bitpos, result).value.1 == |s| + 1
    ensures Varint32Loop(s + [0], bitpos, result).value.0 <= Varint32Loop(s + t, bitpos, result).value.0
    decreases |s|
  {
    hide BitOr, Pow2;
    if s == [] {
      assert s + t == t && s + [0] == [0];
      OrGrows(result, 0);
      LoopGrows(t, bitpos, result);
      Zeroes(Pow2(bitpos));
    } else {
      assert (s + t)[0] == s[0] == (s + [0])[0];
      assert (s + t)[1..] == s[1..] + t && (s + [0])[1..] == s[1..] + [0];
      var c := s[0] as nat % 128 * Pow2(bitpos) % B32;
      LoopCut(s[1..], t, (bitpos + 7) % FAST8, if bitpos >= 32 then result else BitOr(result, c));
    }
  }

  lemma Zeroes(p: nat)
    ensures 0 * p % B32 == 0
  {
  }

  lemma VarintCut(s: seq<byte>, t: seq<byte>)
    requires DecVarint32(s + t).Some? && DecVarint32(s + t).value.1 > |s|
    ensures DecVarint32(s + [0]).Some? && DecVarint32(s + [0]).value.1 == |s| + 1
    ensures DecVarint32(s + [0]).value.0 <= DecVarint32(s + t).value.0
  {
    hide Varint32Loop;
    if s == [] {
      assert s + t == t && s + [0] == [0];
    } else {
      assert (s + t)[0] == s[0] == (s + [0])[0];
      assert (s + t)[1..] == s[1..] + t && (s + [0])[1..] == s[1..] + [0];
      LoopCut(s[1..], t, 7, (s[0] % 128) as nat);
    }
  }

  lemma VarintLast(s: seq<byte>)
    requires DecVarint32(s).Some?
    ensures s[DecVarint32(s).value.1 - 1] < 128
  {
    hide Varint32Loop;
    if s[0] >= 128 {
      LoopLast(s[1..], 7, (s[0] % 128) as nat);
    }
  }

  // ----- Exactly when junk matters -----

  lemma DecodedParts(body: seq<byte>, junk: nat -> byte)
    ensures Decoded(body, junk) == Written(body) + Memory(junk, |Written(body)|, |body| - |Written(body)|)
    ensures forall i :: |Written(body)| <= i < |body| ==> Decoded(body, junk)[i] == junk(i)
  {
    hide Cobs.DecodeFrom;
  }

  /** What is handed over if it does not depend on junk. */
  function HandedAnyway(body: seq<byte>): Option<seq<byte>> {
    var out := Written(body);
    if DelimitedEnd(out).None? then None else Some(Delimited(out))
  }

  lemma HandedSame(body: seq<byte>, junk: nat -> byte)
    requires JunkFree(body)
    ensures Handed(body, junk) == HandedAnyway(body)
  {
    hide DecVarint32, Decoded, Written;
    var out, data := Written(body), Decoded(body, junk);
    var tail := Memory(junk, |out|, |body| - |out|);
    DecodedParts(body, junk);
    if DecVarint32(out).Some? {
      Varint32Local(out, data);
      if DelimitedEnd(out).Some? {
        DelimitedLocal(out, data);
      }
    } else if DecVarint32(data).Some? {
      LengthBehind(out, tail);
      VarintCut(out, tail);
    }
  }

  lemma LengthBehind(s: seq<byte>, t: seq<byte>)
    requires DecVarint32(s).None? && DecVarint32(s + t).Some?
    ensures DecVarint32(s + t).value.1 > |s|
  {
    hide DecVarint32;
    if DecVarint32(s + t).value.1 <= |s| {
      Varint32Local(s + t, s);
    }
  }

  /** Otherwise there are two contents of memory that make a difference. */
  lemma JunkMatters(body: seq<byte>) returns (junk: nat -> byte, junk': nat -> byte)
    requires !JunkFree(body)
    ensures Handed(body, junk) != Handed(body, junk')
  {
    hide DecVarint32, Decoded, Written;
    var out := Written(body);
    if DecVarint32(out).Some? {
      junk, junk' := Constant(0), Constant(1);
      JunkInside(body, junk);
      JunkInside(body, junk');
    } else {
      junk, junk' := Constant(0), Constant(0x80);
      DecodedParts(body, junk);
      DecodedParts(body, junk');
      var data, data' := Decoded(body, junk), Decoded(body, junk');
      assert DecVarint32(out + [0]).Some?;
      ZeroEnds(out);
      assert Agree(out + [0], data, |out| + 1);
      Varint32Local(out + [0], data);
      if DecVarint32(data').Some? {
        LengthBehind(out, Memory(junk', |out|, |body| - |out|));
        VarintLast(data');
      }
    }
  }

  function Constant(b: byte): nat -> byte { (i: nat) => b }

  /** With the length within out and its end behind it, the packet contains junk. */
  lemma JunkInside(body: seq<byte>, junk: nat -> byte)
    requires DecVarint32(Written(body)).Some? && !JunkFree(body)
    ensures
      var (size, k) := DecVarint32(Written(body)).value;
      var at := |Written(body)| - k;
      && Handed(body, junk).Some? && 0 <= at < |Handed(body, junk).value|
      && Handed(body, junk).value[at] == junk(|Written(body)|)
  {
    hide DecVarint32, Decoded, Written;
    var out, data := Written(body), Decoded(body, junk);
    DecodedParts(body, junk);
    Varint32Local(out, data);
  }

  lemma ZeroEnds(out: seq<byte>)
    requires DecVarint32(out).None? && DecVarint32(out + [0]).Some?
    ensures DecVarint32(out + [0]).value.1 == |out| + 1
  {
    hide DecVarint32;
    LengthBehind(out, [0]);
  }

  /** The bytes handed to packet_parser are the same whatever memory held, exactly if the body says
      so. */
  lemma JunkFreeExactly(body: seq<byte>)
    ensures JunkFree(body) <==> SameForAllJunk(body)
  {
    hide Handed, JunkFree, HandedAnyway;
    if JunkFree(body) {
      forall junk: nat -> byte, junk': nat -> byte ensures Handed(body, junk) == Handed(body, junk') {
        HandedSame(body, junk);
        HandedSame(body, junk');
      }
    } else {
      var junk, junk' := JunkMatters(body);
    }
  }

  /** What packet_parser makes of a body depends on what is handed to it. */
  lemma ParsedFromHanded(c: nat, body: seq<byte>, junk: nat -> byte, junk': nat -> byte)
    requires Handed(body, junk) == Handed(body, junk')
    ensures DecodedPacket(c, Decoded(body, junk)) == DecodedPacket(c, Decoded(body, junk'))
  {
    hide Decoded, DelimitedEnd, Delimited, DecMessage, ZeroMessage;
  }
}
