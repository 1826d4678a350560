/** The input half of lib/nanopb-0.3.9.3/pb_decode.c: pb_istream_t, the varint decoders, skipping, and
    substreams.

    A stream is a window of an array: where it stands, and how many bytes it may still take. A
    substream is a smaller window over the same array, and closing it moves its parent behind
    it. */
module PbInput {
  import opened Bytes
  import opened Powers
  import opened PbWire
  import opened PbTypes
  import opened PbDecode

  /** Where a stream stands: the position of its next byte, and how many bytes are left. */
  datatype Cursor = Cursor(state: nat, left: nat)

  /** A read operation takes n bytes, or fails if there is no n. It never moves the stream's end. */
  ghost predicate Advanced(a: Cursor, b: Cursor, ok: bool, n: Option<nat>) {
    && b.state + b.left == a.state + a.left && b.left <= a.left
    && (ok <==> n.Some?) && (ok ==> b.state == a.state + n.value)
  }

  function Size<T>(r: Option<(T, nat)>): Option<nat> {
    match r
    case None => None
    case Some((_, n)) => Some(n)
  }

  function Window(data: seq<byte>, c: Cursor): seq<byte>
    requires c.state + c.left <= |data|
  {
    data[c.state..c.state + c.left]
  }

  lemma WindowAdvanced(data: seq<byte>, a: Cursor, b: Cursor, n: nat)
    requires a.state + a.left <= |data| && Advanced(a, b, true, Some(n))
    ensures n <= a.left && Window(data, b) == Window(data, a)[n..]
  {
  }

  /** pb_istream_t over a buffer. */
  class IStream {
    const data: seq<byte>
    var state: nat
    var bytesLeft: nat

    ghost predicate Valid()
      reads this
    {
      state + bytesLeft <= |data|
    }

    ghost function At(): Cursor
      reads this
    {
      Cursor(state, bytesLeft)
    }

    /** The bytes that are left. */
    ghost function Rest(): seq<byte>
      reads this
      requires Valid()
    {
      Window(data, At())
    }

    /** pb_istream_from_buffer, and the copy of a stream that starts a substream. */
    constructor (data: seq<byte>, state: nat, bytesLeft: nat)
      requires state + bytesLeft <= |data|
      ensures Valid() && this.data == data && At() == Cursor(state, bytesLeft)
    {
      this.data := data;
      this.state := state;
      this.bytesLeft := bytesLeft;
    }

    /** pb_read into a buffer, with buf_read as the callback. */
    method Read(buf: array<byte>, count: nat) returns (ok: bool)
      requires Valid() && count <= buf.Length
      modifies this, buf
      ensures Valid() && Advanced(old(At()), At(), ok, if count <= old(bytesLeft) then Some(count) else None)
      ensures ok ==> buf[..count] == old(Rest())[..count]
      ensures !ok ==> At() == old(At()) && buf[..] == old(buf[..])
      ensures forall k :: count <= k < buf.Length ==> buf[k] == old(buf[k])
    {
      if bytesLeft < count {
        return false;
      }
      var source := state;
      state := source + count;
      var i := 0;
      while i < count
        invariant 0 <= i <= count && state == source + count && bytesLeft == old(bytesLeft)
        invariant forall k :: 0 <= k < i ==> buf[k] == data[source + k]
        invariant forall k :: i <= k < buf.Length ==> buf[k] == old(buf[k])
      {
        buf[i] := data[source + i];
        i := i + 1;
      }
      bytesLeft := bytesLeft - count;
      ok := true;
    }

    /** pb_read without a buffer: the bytes are skipped. */
    method Skip(count: nat) returns (ok: bool)
      requires Valid()
      modifies this
      ensures Valid() && Advanced(old(At()), At(), ok, if count <= old(bytesLeft) then Some(count) else None)
      ensures !ok ==> At() == old(At())
    {
      if bytesLeft < count {
        return false;
      }
      state := state + count;
      bytesLeft := bytesLeft - count;
      ok := true;
    }

    /** pb_readbyte */
    method ReadByte() returns (ok: bool, b: byte)
      requires Valid()
      modifies this
      ensures Valid() && Advanced(old(At()), At(), ok, if old(bytesLeft) > 0 then Some(1) else None)
      ensures ok ==> b == old(Rest())[0]
      ensures !ok ==> At() == old(At())
    {
      if bytesLeft == 0 {
        return false, 0;
      }
      b := data[state];
      state := state + 1;
      bytesLeft := bytesLeft - 1;
      ok := true;
    }

    // ----- Varints -----

    /** pb_decode_varint32_eof: eof says that the stream was at its end. */
    method DecodeVarint32Eof() returns (ok: bool, dest: nat, eof: bool)
      requires Valid()
      modifies this
      ensures Valid() && Advanced(old(At()), At(), ok, Size(DecVarint32(old(Rest()))))
      ensures ok ==> dest == DecVarint32(old(Rest())).value.0
      ensures eof <==> old(bytesLeft) == 0
    {
      hide BitOr, Pow2, Varint32Loop, Window;
      ghost var s, a := Rest(), At();
      assert |s| == bytesLeft by { WindowLength(data, a); }
      var b;
      ok, b := ReadByte();
      eof := !ok;
      dest := 0;
      if !ok {
        return;
      }
      WindowAdvanced(data, a, At(), 1);
      if b < 128 {
        dest := b as nat;
        return;
      }
      var bitpos: nat, result: nat, more := 7, (b % 128) as nat, true;
      ghost var k := 1;
      while more
        invariant Valid() && 1 <= k <= |s| && Advanced(a, At(), true, Some(k)) && Rest() == s[k..]
        invariant DecVarint32(s) ==
          if more then Later(Varint32Loop(Rest(), bitpos, result), k)
          else if bitpos == 35 && b / 16 % 8 != 0 then None
          else Some((result, k))
        decreases bytesLeft, more
      {
        Varint32Turn(Rest(), bitpos, result);
        ghost var here := At();
        assert |Rest()| == bytesLeft by { WindowLength(data, here); }
        ok, b := ReadByte();
        if !ok {
          return;
        }
        WindowAdvanced(data, here, At(), 1);
        if bitpos >= 32 {
          var signExtension := if bitpos < 63 then 0xFF else 0x01;
          if b % 128 != 0 && (result < B31 || b != signExtension) {
            return false, 0, false;
          }
        } else {
          result := BitOr(result, b as nat % 128 * Pow2(bitpos) % B32);
        }
        bitpos := (bitpos + 7) % FAST8;
        more := b >= 128;
        k := k + 1;
      }
      if bitpos == 35 && b / 16 % 8 != 0 {
        return false, 0, false;
      }
      dest := result;
    }

    /** pb_decode_varint32 */
    method DecodeVarint32() returns (ok: bool, dest: nat)
      requires Valid()
      modifies this
      ensures Valid() && Advanced(old(At()), At(), ok, Size(DecVarint32(old(Rest()))))
      ensures ok ==> dest == DecVarint32(old(Rest())).value.0
    {
      var eof;
      ok, dest, eof := DecodeVarint32Eof();
    }

    /** pb_decode_varint */
    method DecodeVarint() returns (ok: bool, dest: nat)
      requires Valid()
      modifies this
      ensures Valid() && Advanced(old(At()), At(), ok, Size(DecVarint64(old(Rest()))))
      ensures ok ==> dest == DecVarint64(old(Rest())).value.0
    {
      hide BitOr, Pow2, VarintSpan, VarintValue, Window;
      ghost var s, a, k := Rest(), At(), 0;
      var bitpos, result, more := 0, 0, true;
      assert s[0..] == s;
      NoGroups(s);
      while more
        invariant Valid() && k <= |s| && k <= 10 && Advanced(a, At(), true, Some(k)) && Rest() == s[k..]
        invariant bitpos == 7 * k && Read64(s, k, result)
        invariant VarintSpan(s) == if more then LaterSpan(VarintSpan(s[k..]), k) else Some(k)
        decreases bytesLeft, more
      {
        SpanTurn(s[k..]);
        if bitpos >= 64 {
          return false, 0;
        }
        ghost var here := At();
        assert |Rest()| == bytesLeft by { WindowLength(data, here); }
        var b;
        ok, b := ReadByte();
        if !ok {
          return false, 0;
        }
        WindowAdvanced(data, here, At(), 1);
        GroupRead(s, k, result);
        result := BitOr(result, b as nat % 128 * Pow2(bitpos) % B64);
        bitpos := bitpos + 7;
        more := b >= 128;
        k := k + 1;
      }
      ok := true;
      dest := result;
    }

    // ----- Skipping -----

    /** pb_skip_varint */
    method SkipVarint() returns (ok: bool)
      requires Valid()
      modifies this
      ensures Valid() && Advanced(old(At()), At(), ok, VarintSpan(old(Rest())))
    {
      hide VarintSpan, Window;
      ghost var s, a, k := Rest(), At(), 0;
      var more := true;
      assert s[0..] == s;
      while more
        invariant Valid() && k <= |s| && Advanced(a, At(), true, Some(k)) && Rest() == s[k..]
        invariant VarintSpan(s) == if more then LaterSpan(VarintSpan(s[k..]), k) else Some(k)
        decreases bytesLeft, more
      {
        SpanTurn(s[k..]);
        ghost var here := At();
        assert |Rest()| == bytesLeft by { WindowLength(data, here); }
        var b;
        ok, b := ReadByte();
        if !ok {
          return;
        }
        WindowAdvanced(data, here, At(), 1);
        more := b >= 128;
        k := k + 1;
      }
      ok := true;
    }

    /** pb_skip_string */
    method SkipString() returns (ok: bool)
      requires Valid()
      modifies this
      ensures Valid() && Advanced(old(At()), At(), ok, DelimitedEnd(old(Rest())))
    {
      hide DecVarint32, Window;
      assert |Rest()| == bytesLeft by { WindowLength(data, At()); }
      var length;
      ok, length := DecodeVarint32();
      if !ok {
        return;
      }
      ok := Skip(length);
    }

    /** pb_skip_field */
    method SkipField(wire: nat) returns (ok: bool)
      requires Valid()
      modifies this
      ensures Valid() && Advanced(old(At()), At(), ok, PbDecode.SkipField(old(Rest()), wire))
    {
      hide VarintSpan, DelimitedEnd;
      if wire == WT_VARINT {
        ok := SkipVarint();
      } else if wire == WT_64BIT {
        ok := Skip(8);
      } else if wire == WT_STRING {
        ok := SkipString();
      } else if wire == WT_32BIT {
        ok := Skip(4);
      } else {
        ok := false;
      }
    }

    /** pb_decode_tag: eof also stands for a zero tag, which ends the message. */
    method DecodeTag() returns (ok: bool, wire: nat, tag: nat, eof: bool)
      requires Valid()
      modifies this
      ensures Valid()
      ensures
        var r := DecTag(old(Rest()));
        && Advanced(old(At()), At(), ok, if r.Tag? then Some(r.size) else None)
        && (ok ==> tag == r.tag && wire == r.wire)
        && (!ok && old(bytesLeft) > 0 ==> (eof <==> r.EndTag?))
    {
      hide DecVarint32, Window;
      var temp;
      wire, tag := 0, 0;
      ok, temp, eof := DecodeVarint32Eof();
      if !ok {
        return;
      }
      if temp == 0 {
        return false, wire, tag, true;
      }
      tag := temp / 8;
      wire := temp % 8;
    }

    // ----- Substreams -----

    /** pb_make_string_substream: the substream holds the delimited bytes, and they no longer count
        as left here. */
    method MakeStringSubstream() returns (ok: bool, substream: IStream?)
      requires Valid()
      modifies this
      ensures ok <==> DelimitedEnd(old(Rest())).Some?
      ensures !ok ==> Valid() && At().state + At().left == old(At().state + At().left) && bytesLeft <= old(bytesLeft)
      ensures ok ==>
        && substream != null && fresh(substream) && substream.Valid() && substream.data == data
        && substream.Rest() == Delimited(old(Rest()))
        && substream.state + substream.bytesLeft == old(state) + DelimitedEnd(old(Rest())).value
        && bytesLeft == old(bytesLeft) - DelimitedEnd(old(Rest())).value
    {
      hide DecVarint32, Window;
      ghost var s, a := Rest(), At();
      assert |s| == bytesLeft by { WindowLength(data, a); }
      var size;
      substream := null;
      ok, size := DecodeVarint32();
      if !ok {
        return;
      }
      if bytesLeft < size {
        return false, null;
      }
      substream := new IStream(data, state, size);
      WindowInside(data, a, state - a.state, size);
      bytesLeft := bytesLeft - size;
    }

    /** pb_close_string_substream: whatever the substream has left is skipped, and the stream goes on
        where the delimited bytes end. */
    method CloseStringSubstream(substream: IStream) returns (ok: bool)
      requires substream.Valid() && substream != this
      modifies this`state, substream
      ensures ok && state == old(substream.state + substream.bytesLeft)
    {
      if substream.bytesLeft != 0 {
        ok := substream.Skip(substream.bytesLeft);
        if !ok {
          return;
        }
      }
      state := substream.state;
      ok := true;
    }
  }

  // ----- The loops, one turn at a time -----

  function Later(r: Option<(nat, nat)>, k: nat): Option<(nat, nat)> {
    match r
    case None => None
    case Some(p) => Some((p.0, p.1 + k))
  }

  function LaterSpan(r: Option<nat>, k: nat): Option<nat> {
    match r
    case None => None
    case Some(n) => Some(n + k)
  }

  lemma WindowLength(data: seq<byte>, c: Cursor)
    requires c.state + c.left <= |data|
    ensures |Window(data, c)| == c.left
  {
  }

  lemma WindowInside(data: seq<byte>, c: Cursor, n: nat, size: nat)
    requires c.state + c.left <= |data| && n + size <= c.left
    ensures Window(data, Cursor(c.state + n, size)) == Window(data, c)[n..n + size]
  {
    var inner, outer := Window(data, Cursor(c.state + n, size)), Window(data, c);
    assert |inner| == size && forall i :: 0 <= i < size ==> inner[i] == outer[n + i];
  }

  lemma Varint32Turn(s: seq<byte>, bitpos: nat, result: nat)
    ensures s == [] ==> Varint32Loop(s, bitpos, result) == None
    ensures s != [] ==>
      var b := s[0] as nat;
      var signExtension := if bitpos < 63 then 0xFF else 0x01;
      var result' := if bitpos >= 32 then result else BitOr(result, b % 128 * Pow2(bitpos) % B32);
      var bitpos' := (bitpos + 7) % FAST8;
      Varint32Loop(s, bitpos, result) ==
        if bitpos >= 32 && b % 128 != 0 && (result < B31 || b != signExtension) then None
        else if b >= 128 then Later(Varint32Loop(s[1..], bitpos', result'), 1)
        else if bitpos' == 35 && b / 16 % 8 != 0 then None
        else Some((result', 1))
  {
    hide BitOr, Pow2;
  }

  lemma SpanTurn(s: seq<byte>)
    ensures VarintSpan(s) ==
      if s == [] then None else if s[0] < 128 then Some(1) else LaterSpan(VarintSpan(s[1..]), 1)
  {
  }

  /** The first k groups of s have been read into result. */
  ghost predicate Read64(s: seq<byte>, k: nat, result: nat) {
    k <= |s| && result == VarintValue(s[..k]) % B64 && VarintValue(s[..k]) < Pow2(7 * k)
  }

  lemma NoGroups(s: seq<byte>)
    ensures Read64(s, 0, 0)
  {
  }

  lemma {:induction false} ValueAppend(x: seq<byte>, b: byte)
    ensures VarintValue(x + [b]) == VarintValue(x) + (b % 128) as nat * Pow2(7 * |x|)
    decreases |x|
  {
    if x == [] {
      assert (x + [b])[1..] == [];
    } else {
      var y := x[1..];
      ValueAppend(y, b);
      assert (x + [b])[1..] == y + [b];
      Pow2Add(7, 7 * |y|);
      assert Pow2(7) == 128;
      hide Pow2, VarintValue;
      var c, p := (b % 128) as nat, Pow2(7 * |y|);
      Distribute128(c, p);
    }
  }

  lemma Distribute128(c: nat, p: nat)
    ensures 128 * (c * p) == c * (128 * p)
  {
  }

  /** One more group. */
  lemma GroupRead(s: seq<byte>, k: nat, result: nat)
    requires k < |s| && k <= 9 && Read64(s, k, result)
    ensures Read64(s, k + 1, BitOr(result, s[k] as nat % 128 * Pow2(7 * k) % B64))
  {
    hide BitOr, Pow2, VarintValue;
    Pow2Large();
    Pow2Monotone(7 * k, 64);
    var v, c, p := VarintValue(s[..k]), s[k] as nat % 128, Pow2(7 * k);
    assert s[..k + 1] == s[..k] + [s[k]];
    ValueAppend(s[..k], s[k]);
    assert v % B64 == v;
    OrGroup(v, c, 7 * k, 64);
    GroupBound(v, c, p);
    Pow2Add(7, 7 * k);
  }
}
