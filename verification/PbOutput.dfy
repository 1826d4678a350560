/** The output half of lib/nanopb-0.3.9.3/pb_encode.c: pb_ostream_t, and the encoders of numbers, tags and
    strings, which write on it.

    A stream without a callback only counts; one with buf_write appends to its buffer as long as there
    is room. What a method does to a stream is said of the stream's state before and after, so that
    lemmas can put one encoder behind another. */
module PbOutput {
  import opened Bytes
  import opened Powers
  import opened PbWire
  import PbTypes
  import opened PbEncode

  // ----- What a stream has done between two moments -----

  datatype Snap = Snap(sizing: bool, mem: seq<byte>, state: nat, maxSize: nat, written: nat)

  ghost predicate ValidSnap(s: Snap) {
    !s.sizing ==> s.written <= s.maxSize && s.state + (s.maxSize - s.written) <= |s.mem|
  }

  /** No byte outside the room the stream had is different. */
  ghost predicate Confined(a: Snap, b: Snap) {
    && a.sizing == b.sizing && a.maxSize == b.maxSize && |a.mem| == |b.mem| && ValidSnap(a) && ValidSnap(b)
    && (!a.sizing ==>
          forall i :: 0 <= i < |a.mem| && (i < a.state || i >= a.state + (a.maxSize - a.written)) ==>
            b.mem[i] == a.mem[i])
  }

  /** The stream has taken e: a sizing stream counts it, a writing stream appends it and changes
      nothing else. */
  ghost predicate Appended(a: Snap, b: Snap, e: seq<byte>) {
    && Confined(a, b) && b.written == a.written + |e|
    && (!a.sizing ==>
          b.state == a.state + |e| &&
          forall i :: 0 <= i < |a.mem| ==>
            b.mem[i] == if a.state <= i < a.state + |e| then e[i - a.state] else a.mem[i])
  }

  predicate Fits(a: Snap, e: seq<byte>) { a.sizing || a.written + |e| <= a.maxSize }

  /** An encoder whose result is e: it succeeds exactly when there is one and the stream has room for
      it, and then the stream has taken it. A failed encoder has written nothing beyond the room. */
  ghost predicate Emitted(a: Snap, b: Snap, ok: bool, e: Option<seq<byte>>) {
    && Confined(a, b)
    && (ok <==> e.Some? && Fits(a, e.value))
    && (ok ==> Appended(a, b, e.value))
  }

  lemma AppendedTwice(a: Snap, b: Snap, c: Snap, x: seq<byte>, y: seq<byte>)
    requires Appended(a, b, x) && Appended(b, c, y)
    ensures Appended(a, c, x + y)
  {
    assert Confined(a, c);
  }

  /** One encoder after another. */
  lemma EmittedThen(a: Snap, b: Snap, c: Snap, ok: bool, x: Option<seq<byte>>, y: Option<seq<byte>>)
    requires Emitted(a, b, true, x) && Emitted(b, c, ok, y)
    ensures Emitted(a, c, ok, Then(x, y))
  {
    hide Appended;
    assert b.written == a.written + |x.value| by { AppendedWritten(a, b, x.value); }
    ConfinedTwice(a, b, c, x.value);
    if ok {
      AppendedTwice(a, b, c, x.value, y.value);
    }
  }

  lemma AppendedWritten(a: Snap, b: Snap, x: seq<byte>)
    requires Appended(a, b, x)
    ensures b.written == a.written + |x|
  {
  }

  lemma ConfinedTwice(a: Snap, b: Snap, c: Snap, x: seq<byte>)
    requires Appended(a, b, x) && Confined(b, c)
    ensures Confined(a, c)
  {
  }

  /** What follows a failed encoder does not matter. */
  lemma FailedThen(a: Snap, b: Snap, x: Option<seq<byte>>, y: Option<seq<byte>>)
    requires Emitted(a, b, false, x)
    ensures Emitted(a, b, false, Then(x, y))
  {
    hide Confined;
  }

  /** A turn of a loop that has emitted done, with x to emit now and rest after it. */
  lemma EmittedTurn(a: Snap, b: Snap, c: Snap, ok: bool, done: Option<seq<byte>>, x: Option<seq<byte>>,
    rest: Option<seq<byte>>)
    requires Emitted(a, b, true, done) && Emitted(b, c, ok, x)
    ensures Then(Then(done, x), rest) == Then(done, Then(x, rest))
    ensures if ok then Emitted(a, c, true, Then(done, x)) else Emitted(a, c, false, Then(done, Then(x, rest)))
  {
    hide Emitted, Then;
    EmittedThen(a, b, c, ok, done, x);
    ThenAssoc(done, x, rest);
    if !ok {
      FailedThen(a, c, Then(done, x), rest);
    }
  }

  /** The two passes agree: a sizing stream counts exactly the bytes a writing stream emits, and
      writing succeeds exactly if the counted size fits. */
  lemma TwoPasses(s: Snap, t: Snap, a: Snap, b: Snap, ok: bool, e: Option<seq<byte>>)
    requires s.sizing && Emitted(s, t, true, e) && !a.sizing && Emitted(a, b, ok, e)
    ensures ok <==> a.written + (t.written - s.written) <= a.maxSize
    ensures ok ==> b.written - a.written == t.written - s.written == b.state - a.state
    ensures forall i :: 0 <= i < |a.mem| && !(a.state <= i < a.state + (a.maxSize - a.written)) ==> b.mem[i] == a.mem[i]
  {
  }

  lemma NothingEmitted(a: Snap)
    requires ValidSnap(a)
    ensures Emitted(a, a, true, Some([]))
  {
  }

  lemma NoRoom(a: Snap, bytes: seq<byte>)
    requires ValidSnap(a) && !Fits(a, bytes)
    ensures Emitted(a, a, false, Some(bytes))
  {
  }

  lemma Taken(a: Snap, b: Snap, bytes: seq<byte>)
    requires ValidSnap(a) && Fits(a, bytes)
    requires b.sizing == a.sizing && b.maxSize == a.maxSize && b.written == a.written + |bytes| && |b.mem| == |a.mem|
    requires !a.sizing ==> b.state == a.state + |bytes|
    requires !a.sizing ==> forall i :: 0 <= i < |a.mem| ==>
      b.mem[i] == if a.state <= i < a.state + |bytes| then bytes[i - a.state] else a.mem[i]
    ensures Emitted(a, b, true, Some(bytes))
  {
  }

  // ----- The stream -----

  /** pb_ostream_t: buf is null for a sizing stream, and state indexes it. */
  class OStream {
    const buf: array?<byte>
    const maxSize: nat
    var state: nat
    var bytesWritten: nat

    ghost function Now(): Snap
      reads this, buf
    {
      Snap(buf == null, if buf == null then [] else buf[..], state, maxSize, bytesWritten)
    }

    /** The bytes the stream may write. */
    ghost function Memory(): set<object> { if buf == null then {} else {buf} }

    /** PB_OSTREAM_SIZING */
    constructor Sizing()
      ensures fresh(this) && ValidSnap(Now()) && buf == null && bytesWritten == 0
    {
      buf := null;
      maxSize := 0;
      state := 0;
      bytesWritten := 0;
    }

    /** pb_ostream_from_buffer, and the writing substream of pb_encode_submessage. */
    constructor FromBuffer(buf: array<byte>, state: nat, maxSize: nat)
      requires state + maxSize <= buf.Length
      ensures fresh(this) && ValidSnap(Now())
      ensures this.buf == buf && this.state == state && this.maxSize == maxSize && bytesWritten == 0
    {
      this.buf := buf;
      this.maxSize := maxSize;
      this.state := state;
      bytesWritten := 0;
    }

    /** buf_write */
    method BufWrite(bytes: seq<byte>)
      requires buf != null && state + |bytes| <= buf.Length
      modifies this`state, Memory()
      ensures state == old(state) + |bytes|
      ensures forall k :: 0 <= k < buf.Length ==>
        buf[k] == if old(state) <= k < state then bytes[k - old(state)] else old(buf[k])
    {
      var dest := state;
      state := dest + |bytes|;
      var i := 0;
      while i < |bytes|
        invariant 0 <= i <= |bytes| && state == old(state) + |bytes|
        invariant forall k :: 0 <= k < buf.Length ==>
          buf[k] == if dest <= k < dest + i then bytes[k - dest] else old(buf[k])
      {
        buf[dest + i] := bytes[i];
        i := i + 1;
      }
    }

    /** pb_write, with buf_write as the callback. */
    method Write(bytes: seq<byte>) returns (ok: bool)
      requires ValidSnap(Now())
      modifies this, Memory()
      ensures Emitted(old(Now()), Now(), ok, Some(bytes))
    {
      hide Emitted;
      ghost var a := Now();
      if buf != null {
        if bytesWritten + |bytes| > maxSize {
          NoRoom(a, bytes);
          return false;
        }
        BufWrite(bytes);
      }
      bytesWritten := bytesWritten + |bytes|;
      ok := true;
      Taken(a, Now(), bytes);
    }

    /** pb_write of count bytes on a sizing stream. */
    method Count(ghost bytes: seq<byte>, count: nat) returns (ok: bool)
      requires ValidSnap(Now()) && buf == null && count == |bytes|
      modifies this
      ensures Emitted(old(Now()), Now(), ok, Some(bytes))
    {
      bytesWritten := bytesWritten + count;
      ok := true;
    }
  }

  // ----- Numbers -----

  /** pb_encode_varint: groups of seven bits in a buffer of ten bytes. */
  method EncodeVarint(stream: OStream, value: nat) returns (ok: bool)
    requires ValidSnap(stream.Now()) && value < B64
    modifies stream, stream.Memory()
    ensures Emitted(old(stream.Now()), stream.Now(), ok, Some(EncVarint(value)))
  {
    hide Emitted, ValidSnap;
    if value <= 0x7F {
      ok := stream.Write([value as byte]);
      return;
    }
    var bytes := VarintBytes(value);
    ok := stream.Write(bytes);
  }

  /** What the first i bytes of the buffer say while `left` remains to be put there. */
  ghost predicate Gathered(value: nat, bytes: seq<byte>, left: nat) {
    if left > 0 then EncVarint(value) == bytes + EncVarint(left)
    else
      && bytes != [] && bytes[|bytes| - 1] >= 128
      && EncVarint(value) == bytes[..|bytes| - 1] + [bytes[|bytes| - 1] - 128]
  }

  lemma GatherOne(value: nat, bytes: seq<byte>, left: nat)
    requires left > 0 && Gathered(value, bytes, left)
    ensures Gathered(value, bytes + [(128 + left % 128) as byte], left / 128)
  {
    var b := (128 + left % 128) as byte;
    if left >= 128 {
      Assoc(bytes, [b], EncVarint(left / 128));
    } else {
      assert (bytes + [b])[..|bytes|] == bytes;
    }
  }

  lemma GroupsLeft(left: nat, i: nat)
    requires left > 0 && i <= 10 && left < Pow2(7 * (10 - i))
    ensures i < 10 && left / 128 < Pow2(7 * (10 - (i + 1)))
  {
    if i < 10 {
      Pow2Add(7, 7 * (9 - i));
      assert Pow2(7) == 128;
      hide Pow2;
      var p := Pow2(7 * (9 - i));
      assert left < 128 * p;
    }
  }

  method VarintBytes(value: nat) returns (bytes: seq<byte>)
    requires 128 <= value < B64
    ensures bytes == EncVarint(value)
  {
    hide EncVarint, Pow2, Gathered;
    var buffer := new byte[10];
    var left: nat := value;
    var i := 0;
    Pow2Large();
    Pow2Monotone(64, 70);
    NothingGathered(value);
    assert buffer[..0] == [];
    while left > 0
      invariant 0 <= i <= 10 && left < Pow2(7 * (10 - i))
      invariant Gathered(value, buffer[..i], left)
      decreases left
    {
      GroupsLeft(left, i);
      GatherOne(value, buffer[..i], left);
      ghost var was := buffer[..i];
      buffer[i] := (128 + left % 128) as byte;
      assert buffer[..i + 1] == was + [(128 + left % 128) as byte];
      left := left / 128;
      i := i + 1;
    }
    AllGathered(value, buffer[..i]);
    buffer[i - 1] := buffer[i - 1] - 128;
    bytes := buffer[..i];
  }

  lemma NothingGathered(value: nat)
    requires value > 0
    ensures Gathered(value, [], value)
  {
  }

  lemma AllGathered(value: nat, bytes: seq<byte>)
    requires Gathered(value, bytes, 0)
    ensures bytes != [] && bytes[|bytes| - 1] >= 128
    ensures EncVarint(value) == bytes[|bytes| - 1 := bytes[|bytes| - 1] - 128]
  {
  }

  /** pb_encode_svarint: the shift and the complement are those of 64-bit words. */
  method EncodeSvarint(stream: OStream, value: int) returns (ok: bool)
    requires ValidSnap(stream.Now()) && -B63 <= value < B63
    modifies stream, stream.Memory()
    ensures Emitted(old(stream.Now()), stream.Now(), ok, Some(EncVarint(ZigZag(value))))
  {
    hide EncVarint;
    var zigzagged := ToUnsigned(value) * 2 % B64;
    if value < 0 {
      zigzagged := B64 - 1 - zigzagged;
    }
    ok := EncodeVarint(stream, zigzagged);
  }

  /** (val >> shift) & 0xFF */
  function Octet(val: nat, shift: nat): byte { (val / Pow2(shift) % 256) as byte }

  /** Byte j of a fixed-width number. */
  lemma {:induction false} FixedAt(val: nat, k: nat, j: nat)
    requires j < k
    ensures EncFixed(val, k)[j] == Octet(val, 8 * j)
    decreases j
  {
    if j > 0 {
      FixedAt(val / 256, k - 1, j - 1);
      Pow2Add(8, 8 * (j - 1));
      assert Pow2(8) == 256;
      DivDiv(val, 256, Pow2(8 * (j - 1)));
    }
  }

  lemma DivDiv(a: nat, p: nat, q: nat)
    requires p > 0 && q > 0
    ensures p * q > 0 && a / p / q == a / (p * q)
  {
    var x, s := DivMod(a, p);
    var y, r := DivMod(x, q);
    Nested(y, q, r, p, s);
    ModUnique(a, y, r * p + s, p * q);
  }

  lemma DivMod(a: nat, p: nat) returns (q: nat, r: nat)
    requires p > 0
    ensures a == q * p + r && r < p && q == a / p
  {
    q, r := a / p, a % p;
  }

  lemma Nested(y: nat, q: nat, r: nat, p: nat, s: nat)
    requires r < q && s < p
    ensures (y * q + r) * p + s == y * (p * q) + (r * p + s) && r * p + s < p * q
  {
    Distribute(y, q, r, p);
    MulLess(r + 1, q, p);
    assert (r + 1) * p == r * p + p;
  }

  /** pb_encode_fixed32 */
  method EncodeFixed32(stream: OStream, val: nat) returns (ok: bool)
    requires ValidSnap(stream.Now()) && val < B32
    modifies stream, stream.Memory()
    ensures Emitted(old(stream.Now()), stream.Now(), ok, Some(EncFixed(val, 4)))
  {
    hide Emitted, ValidSnap, EncFixed, Octet;
    var bytes := [Octet(val, 0), Octet(val, 8), Octet(val, 16), Octet(val, 24)];
    forall j | 0 <= j < 4 ensures bytes[j] == EncFixed(val, 4)[j] { FixedAt(val, 4, j); }
    assert bytes == EncFixed(val, 4);
    ok := stream.Write(bytes);
  }

  /** pb_encode_fixed64 */
  method EncodeFixed64(stream: OStream, val: nat) returns (ok: bool)
    requires ValidSnap(stream.Now()) && val < B64
    modifies stream, stream.Memory()
    ensures Emitted(old(stream.Now()), stream.Now(), ok, Some(EncFixed(val, 8)))
  {
    hide Emitted, ValidSnap, EncFixed, Octet;
    var bytes := [
      Octet(val, 0), Octet(val, 8), Octet(val, 16), Octet(val, 24),
      Octet(val, 32), Octet(val, 40), Octet(val, 48), Octet(val, 56)];
    forall j | 0 <= j < 8 ensures bytes[j] == EncFixed(val, 8)[j] { FixedAt(val, 8, j); }
    assert bytes == EncFixed(val, 8);
    ok := stream.Write(bytes);
  }

  // ----- Tags and strings -----

  /** pb_encode_tag */
  method EncodeTag(stream: OStream, wire: nat, tag: nat) returns (ok: bool)
    requires ValidSnap(stream.Now()) && wire < 8 && tag <= PbTypes.PB_SIZE_MAX
    modifies stream, stream.Memory()
    ensures Emitted(old(stream.Now()), stream.Now(), ok, Some(EncTag(wire, tag)))
  {
    hide Emitted, ValidSnap, EncVarint;
    ok := EncodeVarint(stream, tag * 8 + wire);
  }

  /** pb_encode_string */
  method EncodeString(stream: OStream, buffer: seq<byte>) returns (ok: bool)
    requires ValidSnap(stream.Now()) && |buffer| < B64
    modifies stream, stream.Memory()
    ensures Emitted(old(stream.Now()), stream.Now(), ok, Some(EncString(buffer)))
  {
    hide Emitted, EncVarint, ValidSnap;
    ghost var a := stream.Now();
    ok := EncodeVarint(stream, |buffer|);
    ghost var b := stream.Now();
    if !ok {
      FailedThen(a, b, Some(EncVarint(|buffer|)), Some(buffer));
      return;
    }
    EmittedValid(a, b, true, Some(EncVarint(|buffer|)));
    ok := stream.Write(buffer);
    EmittedThen(a, b, stream.Now(), ok, Some(EncVarint(|buffer|)), Some(buffer));
  }

  lemma EmittedValid(a: Snap, b: Snap, ok: bool, e: Option<seq<byte>>)
    requires Emitted(a, b, ok, e)
    ensures ValidSnap(b)
  {
  }
}
