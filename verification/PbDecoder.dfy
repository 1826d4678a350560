/** The code of lib/nanopb-0.3.9.3/pb_decode.c above the stream: defaults, the field decoders, submessages,
    arrays and pb_decode.

    Each method does what its function in PbDecode says: it takes as many bytes from the stream, leaves
    the same value in the struct, and fails on the same inputs. It also keeps the shape of the struct,
    which is what the next field needs. */
module PbDecoder {
  import opened Bytes
  import opened Powers
  import opened PbWire
  import opened PbTypes
  import opened PbCommon
  import opened PbDecode
  import opened PbInput
  import opened PbRequired

  // ----- Defaults -----

  /** pb_field_set_to_default. */
  method SetFieldToDefault(f: Field, s: Slot) returns (r: Slot)
    requires ValidField(f) && ShapedSlot(f, s)
    ensures r == DefaultSlot(f, s)
    decreases f, 1
  {
    hide ZeroValue, Defaults, ShapedMessage, ValidDescriptor;
    var initData := true;
    r := s;
    if f.htype.Optional? {
      r := r.(has := false);
    } else if f.htype.Repeated? {
      r := r.(count := 0);
      initData := false;
    } else if f.htype.OneOf? {
      initData := false;
    }
    if initData {
      if f.ltype.Submessage? {
        var m := SetToDefaults(f.ltype.fields, r.value.message);
        r := r.(value := Msg(m));
      } else if f.dflt.Some? {
        r := r.(value := f.dflt.value);
      } else {
        r := r.(value := ZeroValue(f.ltype, f.dataSize));
      }
    }
  }

  lemma ShapeAt(fields: seq<Field>, m: Message, i: nat)
    requires ValidDescriptor(fields) && ShapedMessage(fields, m) && i < |fields|
    ensures |m.slots| == |fields| && ShapedSlot(fields[i], m.slots[i]) && ValidField(fields[i])
    ensures fields[i].htype.OneOf? ==> fields[i].htype.group in m.which
  {
    hide DistinctTags, ShapedValue;
  }

  lemma ClearTurn(fields: seq<Field>, which: map<nat, nat>, i: nat)
    requires i < |fields|
    ensures ClearWhich(fields[i..], which) ==
      ClearWhich(fields[i + 1..], if fields[i].htype.OneOf? then which[fields[i].htype.group := 0] else which)
  {
    assert fields[i..][1..] == fields[i + 1..];
  }

  /** The slots of a message with the first i set to their defaults. */
  ghost predicate DefaultsUpto(fields: seq<Field>, slots: seq<Slot>, i: nat, r: seq<Slot>) {
    && |slots| == |r| == |fields| && i <= |fields|
    && (forall j :: 0 <= j < i ==> r[j] == DefaultSlot(fields[j], slots[j]))
    && (forall j :: i <= j < |fields| ==> r[j] == slots[j])
  }

  lemma DefaultsDone(fields: seq<Field>, slots: seq<Slot>, r: seq<Slot>)
    requires DefaultsUpto(fields, slots, |fields|, r)
    ensures r == DefaultSlots(fields, slots)
  {
    hide DefaultSlot, DefaultSlots;
    forall j | 0 <= j < |fields| ensures DefaultSlots(fields, slots)[j] == r[j] { DefaultSlotsAt(fields, slots, j); }
  }

  /** pb_message_set_to_defaults */
  method SetToDefaults(fields: seq<Field>, m: Message) returns (r: Message)
    requires ValidDescriptor(fields) && ShapedMessage(fields, m)
    ensures r == Defaults(fields, m)
    decreases fields
  {
    hide DefaultSlot, DefaultSlots, ClearWhich, ShapedMessage, ValidDescriptor, NonzeroTags, DistinctTags, DataAt,
      SizeAt, RequiredBefore, ShapedSlot, ValidField, Find;
    TagsNonzero(fields);
    var iter := new FieldIter(fields, 0);
    var more := iter.Begin();
    var slots, which: map<nat, nat> := m.slots, m.which;
    assert |slots| == |fields| by { ShapedLength(fields, m); }
    assert fields[0..] == fields && fields[|fields|..] == [];
    while more
      invariant iter.Valid() && iter.fields == fields && (more ==> iter.pos < |fields|)
      invariant DefaultsUpto(fields, m.slots, if more then iter.pos else |fields|, slots)
      invariant ClearWhich(fields, m.which) == ClearWhich(fields[if more then iter.pos else |fields|..], which)
      decreases more, |fields| - iter.pos
    {
      var i := iter.pos;
      ShapeAt(fields, m, i);
      ClearTurn(fields, which, i);
      var slot := SetFieldToDefault(fields[i], slots[i]);
      slots := slots[i := slot];
      if fields[i].htype.OneOf? {
        which := which[fields[i].htype.group := 0];
      }
      more := iter.Next();
    }
    DefaultsDone(fields, m.slots, slots);
    NoneToClear(which);
    r := Message(slots, which);
  }

  lemma NoneToClear(which: map<nat, nat>)
    ensures ClearWhich([], which) == which
  {
  }

  lemma ShapedLength(fields: seq<Field>, m: Message)
    requires ShapedMessage(fields, m)
    ensures |m.slots| == |fields|
  {
  }

  // ----- Field decoders -----

  /** A cast to a signed type of this width. */
  function Cast(n: int, bits: nat): int
    requires bits >= 1
  {
    var r := n % Pow2(bits);
    if r >= Pow2(bits - 1) then r - Pow2(bits) else r
  }

  lemma CastFits(n: int, bits: nat)
    requires bits >= 1 && -B63 <= n < B63
    ensures Cast(n, bits) == n <==> FitsSigned(n, bits)
    ensures n >= 0 ==> Cast(n, bits) == ToSigned(n, bits)
  {
    assert Pow2(bits) == 2 * Pow2(bits - 1);
    hide Pow2;
    var p := Pow2(bits);
    if 0 <= n < p {
      ModUnique(n, 0, n, p);
    } else if n < 0 && n + p >= 0 {
      ModNegative(n, p);
    }
  }

  lemma ModNegative(n: int, p: nat)
    requires n < 0 <= n + p
    ensures n % p == n + p
  {
    var q, r := n / p, n % p;
    assert (q + 1) * p == q * p + p;
    if q + 1 != 0 {
      MulAway(q + 1, p);
    }
  }

  lemma MulAway(k: int, p: nat)
    requires k != 0
    ensures k * p >= p || k * p + p <= 0
  {
    if k > 0 {
      MulLess(1, k, p);
    } else {
      MulLess(1, -k, p);
      assert -k * p == -(k * p);
    }
  }

  /** pb_decode_svarint */
  method DecodeSvarint(stream: IStream) returns (ok: bool, dest: int)
    requires stream.Valid()
    modifies stream
    ensures stream.Valid() && Advanced(old(stream.At()), stream.At(), ok, Size(DecVarint64(old(stream.Rest()))))
    ensures ok ==> dest == UnZigZag(DecVarint64(old(stream.Rest())).value.0)
  {
    hide DecVarint64, Window;
    var value;
    dest := 0;
    ok, value := stream.DecodeVarint();
    if !ok {
      return;
    }
    var half: int := value / 2;
    if value % 2 == 1 {
      dest := -half - 1;
    } else {
      dest := half;
    }
  }

  /** pb_dec_varint, pb_dec_uvarint and pb_dec_svarint: the value is cast to the field's type, and
      refused if that changes it. */
  method DecodeVarintField(stream: IStream, lt: LType, dataSize: nat) returns (ok: bool, n: int)
    requires stream.Valid() && (lt.Varint? || lt.UVarint? || lt.SVarint?)
    modifies stream
    ensures stream.Valid()
    ensures Advanced(old(stream.At()), stream.At(), ok, Size(DecNum(lt, dataSize, old(stream.Rest()))))
    ensures ok ==> n == DecNum(lt, dataSize, old(stream.Rest())).value.0
  {
    hide DecVarint64, Window, Pow2, Cast, ToSigned, UnZigZag, FitsSigned;
    ghost var s := stream.Rest();
    var wide: int := 0;
    n := 0;
    if lt.SVarint? {
      ok, wide := DecodeSvarint(stream);
    } else {
      ok, wide := stream.DecodeVarint();
    }
    if !ok {
      return;
    }
    ghost var value := DecVarint64(s).value.0;
    if dataSize !in {1, 2, 4, 8} {
      return false, 0;
    }
    if lt.UVarint? {
      n := wide % Pow2(8 * dataSize);
      UnsignedFits(value, 8 * dataSize);
    } else {
      if lt.Varint? {
        wide := if dataSize == 8 then ToSigned(wide, 64) else ToSigned(wide, 32);
      }
      SignedRange(lt, value, dataSize);
      n := Cast(wide, 8 * dataSize);
      CastFits(wide, 8 * dataSize);
    }
    ok := n == wide;
  }

  lemma UnsignedFits(v: nat, bits: nat)
    ensures v % Pow2(bits) == v <==> v < Pow2(bits)
  {
    hide Pow2;
    if v < Pow2(bits) {
      ModUnique(v, 0, v, Pow2(bits));
    }
  }

  lemma SignedRange(lt: LType, v: nat, dataSize: nat)
    requires v < B64
    ensures -B63 <= UnZigZag(v) < B63 && -B63 <= ToSigned(v, 64) < B63 && -B63 <= ToSigned(v, 32) < B63
  {
    hide Pow2;
    Pow2Large();
  }

  /** pb_decode_fixed32 and pb_decode_fixed64 */
  method DecodeFixed(stream: IStream, size: nat) returns (ok: bool, n: nat)
    requires stream.Valid() && size in {4, 8}
    modifies stream
    ensures stream.Valid()
    ensures Advanced(old(stream.At()), stream.At(), ok, if |old(stream.Rest())| >= size then Some(size) else None)
    ensures ok ==> n == FixedValue(old(stream.Rest())[..size])
  {
    hide FixedValue, Window;
    assert |stream.Rest()| == stream.bytesLeft by { WindowLength(stream.data, stream.At()); }
    var bytes := new byte[size];
    n := 0;
    ok := stream.Read(bytes, size);
    if !ok {
      return;
    }
    assert bytes[..size] == bytes[..];
    n := Word(bytes, 0);
    if size == 8 {
      var high := Word(bytes, 4);
      EightValue(bytes[..]);
      n := n + high * B32;
    } else {
      assert bytes[0..4] == bytes[..];
    }
  }

  /** Four bytes put together. */
  method Word(bytes: array<byte>, at: nat) returns (n: nat)
    requires at + 4 <= bytes.Length
    ensures n == FixedValue(bytes[at..at + 4])
  {
    n := bytes[at] as nat + bytes[at + 1] as nat * 0x100 + bytes[at + 2] as nat * 0x1_0000;
    n := n + bytes[at + 3] as nat * 0x100_0000;
    FourValue(bytes[at..at + 4]);
  }

  lemma FourValue(x: seq<byte>)
    requires |x| == 4
    ensures FixedValue(x) == x[0] as nat + x[1] as nat * 0x100 + x[2] as nat * 0x1_0000 + x[3] as nat * 0x100_0000
  {
    assert x[1..][1..] == x[2..] && x[2..][1..] == x[3..] && x[3..][1..] == [];
    assert FixedValue(x[3..]) == x[3] as nat;
    assert FixedValue(x[2..]) == x[2] as nat + 256 * FixedValue(x[3..]);
    assert FixedValue(x[1..]) == x[1] as nat + 256 * FixedValue(x[2..]);
  }

  lemma EightValue(x: seq<byte>)
    requires |x| == 8
    ensures FixedValue(x) == FixedValue(x[0..4]) + FixedValue(x[4..8]) * B32
  {
    hide FixedValue, Pow2;
    Pow2Large();
    FixedConcat(x[0..4], x[4..8]);
    assert x[0..4] + x[4..8] == x;
  }

  lemma {:induction false} FixedConcat(x: seq<byte>, y: seq<byte>)
    ensures FixedValue(x + y) == FixedValue(x) + FixedValue(y) * Pow2(8 * |x|)
    decreases |x|
  {
    hide Pow2, FixedValue;
    if x == [] {
      NoFixed(x, y);
    } else {
      var z := x[1..];
      FixedFirst(x);
      FixedFirst(x + y);
      assert (x + y)[1..] == z + y;
      FixedConcat(z, y);
      EightMore(|z|);
      Times256(FixedValue(y), Pow2(8 * |z|));
    }
  }

  lemma NoFixed(x: seq<byte>, y: seq<byte>)
    requires x == []
    ensures x + y == y && FixedValue(x) == 0 && Pow2(8 * |x|) == 1
  {
  }

  lemma FixedFirst(x: seq<byte>)
    requires x != []
    ensures FixedValue(x) == x[0] as nat + 256 * FixedValue(x[1..])
  {
  }

  lemma EightMore(k: nat)
    ensures Pow2(8 * (k + 1)) == 256 * Pow2(8 * k)
  {
    Pow2Add(8, 8 * k);
    assert Pow2(8) == 256;
  }

  lemma Times256(v: nat, p: nat)
    ensures 256 * (v * p) == v * (256 * p)
  {
  }

  /** The number decoder the field's type selects. */
  method DecodeNumber(stream: IStream, lt: LType, dataSize: nat) returns (ok: bool, n: int)
    requires stream.Valid() && lt.Packable()
    modifies stream
    ensures stream.Valid()
    ensures Advanced(old(stream.At()), stream.At(), ok, Size(DecNum(lt, dataSize, old(stream.Rest()))))
    ensures ok ==> n == DecNum(lt, dataSize, old(stream.Rest())).value.0
  {
    hide DecVarint64, Window, FixedValue, Narrow;
    if lt.Fixed32? {
      ok, n := DecodeFixed(stream, 4);
    } else if lt.Fixed64? {
      ok, n := DecodeFixed(stream, 8);
    } else {
      ok, n := DecodeVarintField(stream, lt, dataSize);
    }
  }

  /** pb_dec_bytes, pb_dec_string and pb_dec_fixed_length_bytes, into memory of the field's size. */
  method DecodeBlob(stream: IStream, lt: LType, dataSize: nat) returns (ok: bool, b: seq<byte>)
    requires stream.Valid() && (lt.BytesArray? || lt.CharArray? || lt.FixedLengthBytes?)
    modifies stream
    ensures stream.Valid()
    ensures Advanced(old(stream.At()), stream.At(), ok, Size(DecBlob(lt, dataSize, old(stream.Rest()))))
    ensures ok ==> b == DecBlob(lt, dataSize, old(stream.Rest())).value.0
    ensures ok && lt.FixedLengthBytes? ==> |b| == dataSize
  {
    hide DecVarint32, Window;
    ghost var s, a := stream.Rest(), stream.At();
    assert |s| == stream.bytesLeft by { WindowLength(stream.data, a); }
    var size;
    b := [];
    ok, size := stream.DecodeVarint32();
    if !ok {
      return;
    }
    ghost var c, n := stream.At(), DecVarint32(s).value.1;
    WindowAdvanced(stream.data, a, c, n);
    if !lt.CharArray? && size > PB_SIZE_MAX && !(lt.FixedLengthBytes? && size == 0) {
      return false, [];
    }
    if lt.FixedLengthBytes? && size == 0 {
      return true, Zeros(dataSize);
    }
    var allocSize := if lt.BytesArray? then size + BYTES_OFFSET else if lt.CharArray? then size + 1 else size;
    if if lt.FixedLengthBytes? then allocSize != dataSize else allocSize > dataSize {
      return false, [];
    }
    var dest := new byte[dataSize];
    ok := stream.Read(dest, size);
    if ok {
      assert s[n..][..size] == s[n..n + size];
      b := if lt.CharArray? then CString(dest[..size], size) else dest[..size];
    }
  }

  // ----- Values and submessages -----

  /** The decoder the field's type selects; dest is what the field's memory holds. */
  method DecodeItem(stream: IStream, lt: LType, dataSize: nat, repeated: bool, dest: Value) returns (ok: bool, v: Value)
    requires stream.Valid() && ShapedValue(lt, dataSize, dest) && (lt.Submessage? ==> ValidDescriptor(lt.fields))
    modifies stream
    ensures stream.Valid()
    ensures
      Advanced(old(stream.At()), stream.At(), ok, Size(DecValue(lt, dataSize, repeated, dest, old(stream.Rest()))))
    ensures ok ==> v == DecValue(lt, dataSize, repeated, dest, old(stream.Rest())).value.0
    ensures ShapedValue(lt, dataSize, v)
    decreases lt, 0
  {
    hide DecNum, DecBlob, DecNoInit, Defaults, Delimited, DelimitedEnd, Window, ShapedMessage, ValidDescriptor;
    v := dest;
    if lt.Packable() {
      var n;
      ok, n := DecodeNumber(stream, lt, dataSize);
      v := Num(n);
    } else if lt.Submessage? {
      var m;
      ok, m := DecodeSubmessage(stream, lt.fields, repeated, dest.message);
      v := Msg(m);
    } else {
      var b;
      ok, b := DecodeBlob(stream, lt, dataSize);
      if ok {
        v := Blob(b);
      }
    }
  }

  /** What pb_dec_submessage makes of its input. */
  function SubmessageValue(fields: seq<Field>, repeated: bool, m: Message, s: seq<byte>): Option<(Message, nat)> {
    if DelimitedEnd(s).None? then None
    else
      match DecNoInit(fields, if repeated then Defaults(fields, m) else m, Delimited(s))
      case None => None
      case Some(r) => Some((r, DelimitedEnd(s).value))
  }

  /** pb_dec_submessage: new array entries are initialised, other submessages have been already. */
  method DecodeSubmessage(stream: IStream, fields: seq<Field>, repeated: bool, m: Message)
    returns (ok: bool, r: Message)
    requires stream.Valid() && ValidDescriptor(fields) && ShapedMessage(fields, m)
    modifies stream
    ensures stream.Valid()
    ensures Advanced(old(stream.At()), stream.At(), ok, Size(SubmessageValue(fields, repeated, m, old(stream.Rest()))))
    ensures ok ==> r == SubmessageValue(fields, repeated, m, old(stream.Rest())).value.0
    ensures ShapedMessage(fields, r)
    decreases fields, 8
  {
    hide DecNoInit, Defaults, Delimited, DelimitedEnd, Window, ShapedMessage, ValidDescriptor;
    r := m;
    var substream;
    ok, substream := stream.MakeStringSubstream();
    if !ok {
      return;
    }
    if repeated {
      ok, r := Decode(substream, fields, m);
    } else {
      ok, r := DecodeNoInit(substream, fields, m);
    }
    var closed := stream.CloseStringSubstream(substream);
    ok := closed && ok;
  }

  // ----- Fields -----

  lemma PackedTurn(f: Field, s: seq<byte>, count: nat, items: seq<Value>)
    ensures DecPacked(f, s, count, items) ==
      if s == [] then Some(Many(count, items))
      else if count >= f.arraySize || count >= |items| then None
      else
        match DecValue(f.ltype, f.dataSize, true, items[count], s)
        case None => None
        case Some((v, n)) => DecPacked(f, s[n..], count + 1, items[count := v])
  {
    hide DecValue;
  }

  /** The loop over a packed array, and the check that it took all of the substream. */
  method DecodePackedItems(substream: IStream, f: Field, count: nat, items: seq<Value>)
    returns (ok: bool, size: nat, r: seq<Value>)
    requires substream.Valid() && f.ltype.Packable() && f.htype.Repeated? && ShapedSlot(f, Many(count, items))
    modifies substream
    ensures substream.Valid() && substream.state + substream.bytesLeft == old(substream.state + substream.bytesLeft)
    ensures ok <==> DecPacked(f, old(substream.Rest()), count, items).Some?
    ensures ok ==> Many(size, r) == DecPacked(f, old(substream.Rest()), count, items).value
    ensures ShapedSlot(f, Many(size, r)) && count <= size <= Max(count, f.arraySize)
    ensures forall k :: 0 <= k < count && k < |items| ==> r[k] == items[k]
    decreases f, 1
  {
    hide DecPacked, DecValue, Window, ShapedValue;
    ghost var s := substream.Rest();
    size, r := count, items;
    var status := true;
    while status && substream.bytesLeft > 0 && size < f.arraySize
      invariant substream.Valid() && substream.state + substream.bytesLeft == old(substream.state + substream.bytesLeft)
      invariant ShapedSlot(f, Many(size, r)) && count <= size <= Max(count, f.arraySize)
      invariant forall k :: 0 <= k < count && k < |items| ==> r[k] == items[k]
      invariant DecPacked(f, s, count, items) == if status then DecPacked(f, substream.Rest(), size, r) else None
      decreases substream.bytesLeft, status
    {
      ghost var a, t := substream.At(), substream.Rest();
      PackedTurn(f, t, size, r);
      assert |t| == substream.bytesLeft by { WindowLength(substream.data, a); }
      var v;
      status, v := DecodeItem(substream, f.ltype, f.dataSize, true, r[size]);
      if status {
        WindowAdvanced(substream.data, a, substream.At(), DecValue(f.ltype, f.dataSize, true, r[size], t).value.1);
        r := r[size := v];
        size := size + 1;
      }
    }
    PackedTurn(f, substream.Rest(), size, r);
    assert |substream.Rest()| == substream.bytesLeft by { WindowLength(substream.data, substream.At()); }
    if substream.bytesLeft != 0 {
      return false, size, r;
    }
    ok := status;
  }

  /** decode_static_field for a repeated field. */
  method DecodeRepeatedField(stream: IStream, f: Field, wire: nat, count: nat, items: seq<Value>)
    returns (ok: bool, r: Slot)
    requires stream.Valid() && f.htype.Repeated? && ValidField(f) && ShapedSlot(f, Many(count, items))
    modifies stream
    ensures stream.Valid()
    ensures Advanced(old(stream.At()), stream.At(), ok, Size(DecRepeated(f, wire, count, items, old(stream.Rest()))))
    ensures ok ==> r == DecRepeated(f, wire, count, items, old(stream.Rest())).value.0
    ensures ShapedSlot(f, r) && (!ok ==> Damaged(f, wire, Many(count, items), r))
    decreases f, 2
  {
    hide DecPacked, DecValue, Window, ShapedValue, Delimited, DelimitedEnd, ValidDescriptor;
    r := Many(count, items);
    if wire == WT_STRING && f.ltype.Packable() {
      var substream;
      ok, substream := stream.MakeStringSubstream();
      if !ok {
        return;
      }
      var size, values;
      ok, size, values := DecodePackedItems(substream, f, count, items);
      r := Many(size, values);
      var closed := stream.CloseStringSubstream(substream);
      ok := closed && ok;
    } else {
      if count >= f.arraySize {
        // The count has been incremented by the comparison.
        return false, Many((count + 1) % (PB_SIZE_MAX + 1), items);
      }
      var v;
      ok, v := DecodeItem(stream, f.ltype, f.dataSize, true, items[count]);
      r := Many(count + 1, items[count := v]);
    }
  }

  /** decode_static_field; the number of a oneof is kept by DecodeField. */
  method DecodeStaticField(stream: IStream, f: Field, wire: nat, s: Slot) returns (ok: bool, r: Slot)
    requires stream.Valid() && ValidField(f) && ShapedSlot(f, s)
    modifies stream
    ensures stream.Valid()
    ensures Advanced(old(stream.At()), stream.At(), ok, Size(DecSlot(f, wire, s, old(stream.Rest()))))
    ensures ok ==> r == DecSlot(f, wire, s, old(stream.Rest())).value.0
    ensures ShapedSlot(f, r) && (!ok ==> Damaged(f, wire, s, r))
    decreases f, 3
  {
    hide DecValue, Window, ShapedMessage, Defaults, ZeroMessage, ValidDescriptor, DecPacked;
    if f.htype.Repeated? {
      ok, r := DecodeRepeatedField(stream, f, wire, s.count, s.items);
      return;
    }
    r := s;
    if f.htype.Optional? {
      r := r.(has := true);
    } else if f.htype.OneOf? && f.ltype.Submessage? {
      ZeroShaped(f.ltype.fields);
      DefaultsShaped(f.ltype.fields, ZeroMessage(f.ltype.fields));
      var m := SetToDefaults(f.ltype.fields, ZeroMessage(f.ltype.fields));
      r := r.(value := Msg(m));
    }
    var v;
    ok, v := DecodeItem(stream, f.ltype, f.dataSize, false, r.value);
    r := r.(value := v);
  }

  lemma {:induction false} DefaultsShaped(fields: seq<Field>, m: Message)
    requires ValidDescriptor(fields) && ShapedMessage(fields, m)
    ensures ShapedMessage(fields, Defaults(fields, m))
    decreases fields
  {
    hide DefaultSlot, ShapedSlot, DefaultSlots, ValidField, DistinctTags;
    forall i | 0 <= i < |fields| ensures ShapedSlot(fields[i], DefaultSlots(fields, m.slots)[i]) {
      DefaultSlotsAt(fields, m.slots, i);
      DefaultSlotShaped(fields[i], m.slots[i]);
    }
  }

  lemma {:induction false} DefaultSlotShaped(f: Field, s: Slot)
    requires ValidField(f) && ShapedSlot(f, s)
    ensures ShapedSlot(f, DefaultSlot(f, s))
    decreases f
  {
    hide ZeroValue, Defaults, ShapedMessage, ValidDescriptor;
    if s.Single? && !f.htype.OneOf? {
      if f.ltype.Submessage? {
        DefaultsShaped(f.ltype.fields, s.value.message);
      } else {
        ZeroValueShaped(f.ltype, f.dataSize);
      }
    }
  }

  /** decode_field: the field at position i, stored in the message. */
  method DecodeField(stream: IStream, fields: seq<Field>, i: nat, wire: nat, m: Message, ghost seen: set<nat>)
    returns (ok: bool, r: Message)
    requires stream.Valid() && i < |fields| && ValidDescriptor(fields) && ShapedMessage(fields, m)
    modifies stream
    ensures stream.Valid()
    ensures
      var r := DecField(fields, i, wire, Progress(m, seen), old(stream.Rest()));
      Advanced(old(stream.At()), stream.At(), ok, Size(r))
    ensures ok ==>
      Progress(r, if fields[i].htype.Required? then seen + {i} else seen) ==
      DecField(fields, i, wire, Progress(m, seen), old(stream.Rest())).value.0
    ensures ShapedMessage(fields, r)
    ensures !ok ==>
      && |r.slots| == |m.slots| == |fields| && Damaged(fields[i], wire, m.slots[i], r.slots[i])
      && (forall j :: 0 <= j < |m.slots| && j != i ==> r.slots[j] == m.slots[j])
      && r.which == if fields[i].htype.OneOf? then m.which[fields[i].htype.group := fields[i].tag] else m.which
    decreases fields, 4
  {
    hide DecSlot, Damaged, Window, ShapedSlot, ValidDescriptor, ValidField;
    ShapeAt(fields, m, i);
    var f := fields[i];
    var slot;
    ok, slot := DecodeStaticField(stream, f, wire, m.slots[i]);
    r := Message(m.slots[i := slot], if f.htype.OneOf? then m.which[f.htype.group := f.tag] else m.which);
  }

  // ----- Messages -----

  /** What is left of the loop: all of it, or nothing more. */
  function Remaining(fields: seq<Field>, done: bool, st: Progress, s: seq<byte>): Option<Progress> {
    if done then Some(st) else DecLoop(fields, st, s)
  }

  lemma NothingHarmed(fields: seq<Field>, m: Message, s: seq<byte>)
    requires DecTag(s).Tag? ==> Find(fields, DecTag(s).tag).None?
    ensures LeftByTurn(fields, m, s, m)
  {
    hide DecTag, Find;
  }

  lemma FieldHarmed(fields: seq<Field>, m: Message, s: seq<byte>, i: nat, r: Message)
    requires DecTag(s).Tag? && Find(fields, DecTag(s).tag) == Some(i) && |r.slots| == |m.slots| == |fields|
    requires Damaged(fields[i], DecTag(s).wire, m.slots[i], r.slots[i])
    requires forall j :: 0 <= j < |m.slots| && j != i ==> r.slots[j] == m.slots[j]
    requires r.which == if fields[i].htype.OneOf? then m.which[fields[i].htype.group := fields[i].tag] else m.which
    ensures LeftByTurn(fields, m, s, r)
  {
    hide DecTag, Find, Damaged;
  }

  lemma LastTurnStep(fields: seq<Field>, st: Progress, s: seq<byte>)
    ensures s == [] || Turn(fields, st, s).Fail? || Turn(fields, st, s).Stop? ==> LastTurn(fields, st, s) == (st, s)
    ensures s != [] && Turn(fields, st, s).Go? ==>
      LastTurn(fields, st, s) == LastTurn(fields, Turn(fields, st, s).st, s[Turn(fields, st, s).n..])
  {
    hide Turn;
  }

  /** At the end, and where a zero tag ends the message, no field fails. */
  lemma Unharmed(fields: seq<Field>, st: Progress, s: seq<byte>)
    requires s == [] || Turn(fields, st, s).Stop?
    ensures LeftByTurn(fields, st.message, s, st.message)
  {
    hide DecField, PbDecode.SkipField, Find;
  }

  lemma LoopTurn(fields: seq<Field>, st: Progress, s: seq<byte>)
    ensures s == [] ==> DecLoop(fields, st, s) == Some(st)
    ensures s != [] ==>
      DecLoop(fields, st, s) ==
        match Turn(fields, st, s)
        case Fail => None
        case Stop => Some(st)
        case Go(st', n) => DecLoop(fields, st', s[n..])
  {
    hide Turn;
  }

  /** With distinct tags, there is one field for the iterator to find. */
  lemma FoundAt(fields: seq<Field>, tag: nat, pos: nat)
    requires DistinctTags(fields)
    ensures pos < |fields| && fields[pos].tag == tag ==> Find(fields, tag) == Some(pos)
    ensures (forall i :: 0 <= i < |fields| ==> fields[i].tag != tag) ==> Find(fields, tag) == None
  {
    hide DistinctTags, Find;
    if pos < |fields| && fields[pos].tag == tag {
      FindAt(fields, pos);
    }
  }

  /** One turn of the loop of pb_decode_noinit, on a stream with bytes left. */
  method DecodeTurn(stream: IStream, iter: FieldIter, fieldsSeen: array<nat>, m: Message, ghost seen: set<nat>)
    returns (ok: bool, done: bool, r: Message, ghost seen': set<nat>)
    requires stream.Valid() && stream.bytesLeft > 0 && iter.Valid() && ValidDescriptor(iter.fields)
    requires ShapedMessage(iter.fields, m) && fieldsSeen.Length == 2
    requires Marks(fieldsSeen[0], 0, iter.fields, seen) && Marks(fieldsSeen[1], 32, iter.fields, seen)
    modifies stream, iter, fieldsSeen
    ensures stream.Valid() && iter.Valid()
    ensures stream.state + stream.bytesLeft == old(stream.state + stream.bytesLeft)
      && stream.bytesLeft <= old(stream.bytesLeft)
    ensures
      var turn := Turn(iter.fields, Progress(m, seen), old(stream.Rest()));
      && (ok <==> !turn.Fail?) && (ok ==> (done <==> turn.Stop?))
      && (ok && done ==> r == m && seen' == seen)
      && (ok && !done ==>
            turn.st == Progress(r, seen') && Advanced(old(stream.At()), stream.At(), true, Some(turn.n)))
    ensures ok ==> Marks(fieldsSeen[0], 0, iter.fields, seen') && Marks(fieldsSeen[1], 32, iter.fields, seen')
    ensures ShapedMessage(iter.fields, r)
    ensures !ok ==> LeftByTurn(iter.fields, m, old(stream.Rest()), r)
    decreases iter.fields, 5
  {
    hide LeftByTurn, Damaged, DecTag, PbDecode.SkipField, DecField, Window, ShapedMessage, ValidDescriptor, Marks,
      DataAt, SizeAt, NonzeroTags, DistinctTags, RequiredBefore, Find;
    var fields := iter.fields;
    ghost var s, a := stream.Rest(), stream.At();
    TagsNonzero(fields);
    r, seen' := m, seen;
    var wire, tag, eof;
    ok, wire, tag, eof := stream.DecodeTag();
    if !ok {
      NothingHarmed(fields, m, s);
      return eof, true, m, seen;
    }
    done := false;
    ghost var n := DecTag(s).size;
    WindowAdvanced(stream.data, a, stream.At(), n);
    var found := iter.Find(tag);
    FoundAt(fields, tag, iter.pos);
    if !found {
      NothingHarmed(fields, m, s);
      ok := stream.SkipField(wire);
    } else if iter.pos == |fields| {
      NothingHarmed(fields, m, s);
      return false, false, m, seen;
    } else {
      if fields[iter.pos].htype.Required? && iter.requiredFieldIndex < PB_MAX_REQUIRED_FIELDS {
        MarkSeen(fieldsSeen, fields, iter.pos, iter.requiredFieldIndex, seen);
      } else if fields[iter.pos].htype.Required? {
        OtherWord(fieldsSeen[0], 0, fields, iter.pos, seen);
        OtherWord(fieldsSeen[1], 32, fields, iter.pos, seen);
      }
      ok, r := DecodeField(stream, fields, iter.pos, wire, m, seen);
      if !ok {
        FieldHarmed(fields, m, s, iter.pos, r);
      }
      seen' := if fields[iter.pos].htype.Required? then seen + {iter.pos} else seen;
    }
  }

  /** pb_decode_noinit */
  method DecodeNoInit(stream: IStream, fields: seq<Field>, m: Message) returns (ok: bool, r: Message)
    requires stream.Valid() && ValidDescriptor(fields) && ShapedMessage(fields, m)
    modifies stream
    ensures stream.Valid() && stream.state + stream.bytesLeft == old(stream.state + stream.bytesLeft)
    ensures ok <==> DecNoInit(fields, m, old(stream.Rest())).Some?
    ensures ok ==> r == DecNoInit(fields, m, old(stream.Rest())).value
    ensures ShapedMessage(fields, r) && (!ok ==> Left(fields, m, old(stream.Rest()), r))
    decreases fields, 6
  {
    hide LastTurn, LeftByTurn, DecLoop, Turn, Window, ShapedMessage, ValidDescriptor, Marks, DataAt, SizeAt,
      NonzeroTags, DistinctTags, RequiredBefore, RequiredSeen;
    ghost var s := stream.Rest();
    TagsNonzero(fields);
    var fieldsSeen := new nat[2];
    fieldsSeen[0], fieldsSeen[1] := 0, 0;
    NothingSeen(fields, 0);
    NothingSeen(fields, 32);
    var iter := new FieldIter(fields, 0);
    var more := iter.Begin();
    ghost var seen := {};
    var done := false;
    r := m;
    while !done && stream.bytesLeft > 0
      invariant stream.Valid() && stream.state + stream.bytesLeft == old(stream.state + stream.bytesLeft)
      invariant iter.Valid() && iter.fields == fields && ShapedMessage(fields, r) && fieldsSeen.Length == 2
      invariant Marks(fieldsSeen[0], 0, fields, seen) && Marks(fieldsSeen[1], 32, fields, seen)
      invariant DecLoop(fields, Progress(m, {}), s) == Remaining(fields, done, Progress(r, seen), stream.Rest())
      invariant if done then Left(fields, m, s, r)
        else LastTurn(fields, Progress(m, {}), s) == LastTurn(fields, Progress(r, seen), stream.Rest())
      decreases stream.bytesLeft, !done
    {
      ghost var a, t := stream.At(), stream.Rest();
      assert |t| == stream.bytesLeft by { WindowLength(stream.data, a); }
      LoopTurn(fields, Progress(r, seen), t);
      LastTurnStep(fields, Progress(r, seen), t);
      if Turn(fields, Progress(r, seen), t).Stop? {
        Unharmed(fields, Progress(r, seen), t);
      }
      ok, done, r, seen := DecodeTurn(stream, iter, fieldsSeen, r, seen);
      if !ok {
        return;
      }
      if !done {
        WindowAdvanced(stream.data, a, stream.At(), stream.state - a.state);
      }
    }
    assert |stream.Rest()| == stream.bytesLeft by { WindowLength(stream.data, stream.At()); }
    LoopTurn(fields, Progress(r, seen), stream.Rest());
    if !done {
      LastTurnStep(fields, Progress(r, seen), stream.Rest());
      Unharmed(fields, Progress(r, seen), stream.Rest());
    }
    ok := CheckRequired(fieldsSeen, iter, seen);
  }

  /** pb_decode */
  method Decode(stream: IStream, fields: seq<Field>, m: Message) returns (ok: bool, r: Message)
    requires stream.Valid() && ValidDescriptor(fields) && ShapedMessage(fields, m)
    modifies stream
    ensures stream.Valid() && stream.state + stream.bytesLeft == old(stream.state + stream.bytesLeft)
    ensures ok <==> DecMessage(fields, m, old(stream.Rest())).Some?
    ensures ok ==> r == DecMessage(fields, m, old(stream.Rest())).value
    ensures ShapedMessage(fields, r) && (!ok ==> Left(fields, Defaults(fields, m), old(stream.Rest()), r))
    decreases fields, 7
  {
    hide DecNoInit, Defaults, ShapedMessage, ValidDescriptor, Window, Left;
    DefaultsShaped(fields, m);
    r := SetToDefaults(fields, m);
    ok, r := DecodeNoInit(stream, fields, r);
  }
}
