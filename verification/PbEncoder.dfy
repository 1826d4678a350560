/** The code of lib/nanopb-0.3.9.3/pb_encode.c above the stream: the field encoders, arrays, submessages in
    two passes, and pb_encode.

    Each method emits what its function in PbEncode says: on a sizing stream it counts these bytes, on
    a writing one it appends them, and it fails exactly if there are none to emit or they do not
    fit. */
module PbEncoder {
  import opened Bytes
  import opened Powers
  import opened PbWire
  import opened PbTypes
  import opened PbCommon
  import opened PbEncode
  import opened PbOutput

  // ----- Field encoders -----

  /** pb_enc_varint, pb_enc_uvarint, pb_enc_svarint, pb_enc_fixed32 and pb_enc_fixed64. */
  method EncodeNumber(stream: OStream, lt: LType, dataSize: nat, n: int) returns (ok: bool)
    requires ValidSnap(stream.Now()) && lt.Packable() && TypedValue(lt, dataSize, Num(n))
    modifies stream, stream.Memory()
    ensures Emitted(old(stream.Now()), stream.Now(), ok, EncValue(lt, dataSize, Num(n)))
  {
    hide ValidSnap, EncVarint, EncFixed, Pow2, Appended;
    NumberRange(lt, dataSize, n);
    if lt.Fixed32? {
      ok := EncodeFixed32(stream, n);
    } else if lt.Fixed64? {
      ok := EncodeFixed64(stream, n);
    } else if dataSize !in {1, 2, 4, 8} {
      NothingEmitted(stream.Now());
      ok := false;
    } else if lt.SVarint? {
      ok := EncodeSvarint(stream, n);
    } else if lt.UVarint? {
      ok := EncodeVarint(stream, n);
    } else {
      ok := EncodeVarint(stream, ToUnsigned(n));
    }
  }

  lemma NumberRange(lt: LType, dataSize: nat, n: int)
    requires lt.Packable() && TypedValue(lt, dataSize, Num(n))
    ensures lt.Fixed32? ==> 0 <= n < B32
    ensures lt.Fixed64? ==> 0 <= n < B64
    ensures (lt.Varint? || lt.SVarint?) && dataSize in {1, 2, 4, 8} ==> -B63 <= n < B63
    ensures lt.UVarint? && dataSize in {1, 2, 4, 8} ==> 0 <= n < B64
    ensures EncValue(lt, dataSize, Num(n)) ==
      if lt.Fixed32? then Some(EncFixed(n, 4))
      else if lt.Fixed64? then Some(EncFixed(n, 8))
      else if dataSize !in {1, 2, 4, 8} then None
      else if lt.SVarint? then Some(EncVarint(ZigZag(n)))
      else if lt.UVarint? then Some(EncVarint(n))
      else Some(EncVarint(ToUnsigned(n)))
  {
    hide Pow2;
    Pow2Large();
    if dataSize in {1, 2, 4, 8} {
      Pow2Monotone(8 * dataSize, 64);
      Pow2Monotone(8 * dataSize - 1, 63);
    }
  }

  /** The loop of pb_enc_string: how many bytes come before the terminator. */
  method StringLength(b: seq<byte>, max: nat) returns (size: nat)
    ensures size <= |b| && size <= max && b[..size] == CString(b, max)
  {
    size := 0;
    while size < max && size < |b| && b[size] != 0
      invariant size <= |b| && size <= max
      invariant CString(b, max) == b[..size] + CString(b[size..], max - size)
    {
      assert b[size..][1..] == b[size + 1..];
      Assoc(b[..size], [b[size]], CString(b[size + 1..], max - (size + 1)));
      assert b[..size] + [b[size]] == b[..size + 1];
      size := size + 1;
    }
  }

  /** pb_enc_bytes, pb_enc_string and pb_enc_fixed_length_bytes. */
  method EncodeBlob(stream: OStream, lt: LType, dataSize: nat, b: seq<byte>) returns (ok: bool)
    requires ValidSnap(stream.Now()) && (lt.BytesArray? || lt.CharArray? || lt.FixedLengthBytes?)
    requires TypedValue(lt, dataSize, Blob(b)) && dataSize <= PB_SIZE_MAX
    modifies stream, stream.Memory()
    ensures Emitted(old(stream.Now()), stream.Now(), ok, EncValue(lt, dataSize, Blob(b)))
  {
    hide ValidSnap, EncString, CString, Appended;
    if lt.BytesArray? && |b| + BYTES_OFFSET > dataSize {
      NothingEmitted(stream.Now());
      return false;
    }
    var size := |b|;
    if lt.CharArray? {
      size := StringLength(b, dataSize);
    }
    assert b[..|b|] == b;
    ok := EncodeString(stream, b[..size]);
  }

  /** The encoder the field's type selects. */
  method EncodeItem(stream: OStream, lt: LType, dataSize: nat, v: Value) returns (ok: bool)
    requires ValidSnap(stream.Now()) && TypedValue(lt, dataSize, v)
    requires dataSize <= PB_SIZE_MAX && (lt.Submessage? ==> ValidDescriptor(lt.fields))
    modifies stream, stream.Memory()
    ensures Emitted(old(stream.Now()), stream.Now(), ok, EncValue(lt, dataSize, v))
    decreases lt, 0
  {
    hide Emitted, ValidSnap, TypedMessage, EncMessage, ValidDescriptor, FitsSigned, Pow2, EncString, EncVarint,
      EncFixed, CString;
    if lt.Packable() {
      ok := EncodeNumber(stream, lt, dataSize, v.n);
    } else if lt.Submessage? {
      ok := EncodeSubmessage(stream, lt.fields, v.message);
    } else {
      ok := EncodeBlob(stream, lt, dataSize, v.bytes);
    }
  }

  // ----- Submessages -----

  function Delimit(e: Option<seq<byte>>): Option<seq<byte>> {
    match e
    case None => None
    case Some(b) => Some(EncString(b))
  }

  /** pb_encode_submessage: a first pass on a sizing stream, then the length, then a second pass on
      a substream with exactly that room. The second pass always fills it. */
  method EncodeSubmessage(stream: OStream, fields: seq<Field>, m: Message) returns (ok: bool)
    requires ValidSnap(stream.Now()) && ValidDescriptor(fields) && TypedMessage(fields, m)
      && Countable(EncMessage(fields, m))
    modifies stream, stream.Memory()
    ensures Emitted(old(stream.Now()), stream.Now(), ok, Delimit(EncMessage(fields, m)))
    decreases fields, 4
  {
    hide Emitted, ValidSnap, EncMessage, TypedMessage, ValidDescriptor, EncVarint, Then, Confined, Appended;
    ghost var a, e := stream.Now(), EncMessage(fields, m);
    var sizing := new OStream.Sizing();
    ghost var s := sizing.Now();
    ok := Encode(sizing, fields, m);
    SizingDone(s, sizing.Now(), ok, e);
    if !ok {
      NothingFailed(a);
      return;
    }
    var size := sizing.bytesWritten;
    ok := EncodeVarint(stream, size);
    ghost var b := stream.Now();
    DelimitParts(e.value);
    if !ok {
      FailedThen(a, b, Some(EncVarint(size)), e);
      return;
    }
    EmittedValid(a, b, true, Some(EncVarint(size)));
    if stream.buf == null {
      ok := stream.Count(e.value, size);
      EmittedThen(a, b, stream.Now(), ok, Some(EncVarint(size)), e);
      return;
    }
    if stream.bytesWritten + size > stream.maxSize {
      StreamFull(b, e.value);
      EmittedThen(a, b, stream.Now(), false, Some(EncVarint(size)), e);
      return false;
    }
    ok := SecondPass(stream, fields, m, size);
    EmittedThen(a, b, stream.Now(), ok, Some(EncVarint(size)), e);
  }

  /** The substream of pb_encode_submessage. Its length is compared with the first pass's afterwards:
      they are always equal. */
  method SecondPass(stream: OStream, fields: seq<Field>, m: Message, size: nat) returns (ok: bool)
    requires ValidSnap(stream.Now()) && ValidDescriptor(fields) && TypedMessage(fields, m)
    requires stream.buf != null && stream.bytesWritten + size <= stream.maxSize
    requires EncMessage(fields, m).Some? && size == |EncMessage(fields, m).value|
    modifies stream, stream.Memory()
    ensures ok && Emitted(old(stream.Now()), stream.Now(), ok, EncMessage(fields, m))
    decreases fields, 3, 2
  {
    hide Emitted, EncMessage, TypedMessage, ValidDescriptor, Confined, Appended;
    ghost var e := EncMessage(fields, m);
    ghost var b := stream.Now();
    var substream := new OStream.FromBuffer(stream.buf, stream.state, size);
    ghost var s := substream.Now();
    var status := Encode(substream, fields, m);
    ghost var t := substream.Now();
    stream.bytesWritten := stream.bytesWritten + substream.bytesWritten;
    stream.state := substream.state;
    SubstreamDone(b, s, t, stream.Now(), status, e.value);
    ok := status && substream.bytesWritten == size;
  }

  lemma SizingDone(a: Snap, b: Snap, ok: bool, e: Option<seq<byte>>)
    requires a.sizing && a.written == 0 && Emitted(a, b, ok, e)
    ensures ok <==> e.Some?
    ensures ok ==> b.written == |e.value|
  {
  }

  lemma NothingFailed(a: Snap)
    requires ValidSnap(a)
    ensures Emitted(a, a, false, None)
  {
  }

  lemma DelimitParts(e: seq<byte>)
    ensures Some(EncString(e)) == Then(Some(EncVarint(|e|)), Some(e))
  {
  }

  lemma StreamFull(b: Snap, e: seq<byte>)
    requires ValidSnap(b) && !b.sizing && b.written + |e| > b.maxSize
    ensures Emitted(b, b, false, Some(e))
  {
  }

  /** s is a substream of b with exactly |e| bytes of room, and t is s when e has been emitted. */
  lemma SubstreamDone(b: Snap, s: Snap, t: Snap, c: Snap, ok: bool, e: seq<byte>)
    requires ValidSnap(b) && !b.sizing && b.written + |e| <= b.maxSize
    requires s == b.(maxSize := |e|, written := 0)
    requires Emitted(s, t, ok, Some(e))
    requires c == t.(maxSize := b.maxSize, written := b.written + t.written)
    ensures ok && t.written == |e| && Emitted(b, c, true, Some(e))
  {
  }

  // ----- Fields -----

  /** pb_encode_tag_for_field and the field's encoder. */
  method EncodeOne(stream: OStream, f: Field, v: Value) returns (ok: bool)
    requires ValidSnap(stream.Now()) && TypedValue(f.ltype, f.dataSize, v) && ValidField(f)
    modifies stream, stream.Memory()
    ensures Emitted(old(stream.Now()), stream.Now(), ok, EncTagged(f, v))
    decreases f.ltype, 1
  {
    hide Emitted, ValidSnap, EncTag, EncValue, Then, ValidDescriptor, TypedValue, ShapedValue;
    ghost var a, tag := stream.Now(), Some(EncTag(WireType(f.ltype), f.tag));
    ok := EncodeTag(stream, WireType(f.ltype), f.tag);
    ghost var b := stream.Now();
    if !ok {
      FailedThen(a, b, tag, EncValue(f.ltype, f.dataSize, v));
      return;
    }
    EmittedValid(a, b, true, tag);
    ok := EncodeItem(stream, f.ltype, f.dataSize, v);
    EmittedThen(a, b, stream.Now(), ok, tag, EncValue(f.ltype, f.dataSize, v));
  }

  /** The loop over the items of a packed array, first on the sizing stream and then on the real one. */
  method EncodePackedItems(stream: OStream, f: Field, items: seq<Value>) returns (ok: bool)
    requires ValidSnap(stream.Now()) && ValidField(f) && f.ltype.Packable()
    requires forall k :: 0 <= k < |items| ==> TypedValue(f.ltype, f.dataSize, items[k])
    modifies stream, stream.Memory()
    ensures Emitted(old(stream.Now()), stream.Now(), ok, EncPacked(f, items))
    decreases f.ltype, 1
  {
    hide Emitted, ValidSnap, EncValue, Then, TypedValue, ValidField, EncPacked;
    ghost var a, done := stream.Now(), Some([]);
    NothingEmitted(a);
    assert items[0..] == items;
    FirstThen(EncPacked(f, items));
    var i := 0;
    while i < |items|
      invariant 0 <= i <= |items|
      invariant Emitted(a, stream.Now(), true, done)
      invariant EncPacked(f, items) == Then(done, EncPacked(f, items[i..]))
    {
      PackedFirst(f, items[i..]);
      assert items[i..][1..] == items[i + 1..];
      ghost var x, rest, b := EncValue(f.ltype, f.dataSize, items[i]), EncPacked(f, items[i + 1..]), stream.Now();
      EmittedValid(a, b, true, done);
      DataSizeFits(f);
      ok := EncodeItem(stream, f.ltype, f.dataSize, items[i]);
      EmittedTurn(a, b, stream.Now(), ok, done, x, rest);
      if !ok {
        return;
      }
      done := Then(done, x);
      i := i + 1;
    }
    LastThen(done, EncPacked(f, items[i..]));
    PackedNone(f, items[i..]);
    ok := true;
  }

  lemma DataSizeFits(f: Field)
    requires ValidField(f)
    ensures f.dataSize <= PB_SIZE_MAX && f.arraySize <= PB_SIZE_MAX && f.tag <= PB_SIZE_MAX
    ensures f.ltype.Submessage? ==> ValidDescriptor(f.ltype.fields)
  {
    hide ShapedValue, ValidDescriptor;
  }

  lemma FirstThen(x: Option<seq<byte>>)
    ensures x == Then(Some([]), x)
  {
    if x.Some? {
      NoBytes(x.value);
    }
  }

  lemma LastThen(x: Option<seq<byte>>, y: Option<seq<byte>>)
    ensures y == Some([]) ==> Then(x, y) == x
  {
    if x.Some? {
      NoBytes(x.value);
    }
  }

  lemma PackedFirst(f: Field, items: seq<Value>)
    requires items != []
    ensures EncPacked(f, items) == Then(EncValue(f.ltype, f.dataSize, items[0]), EncPacked(f, items[1..]))
  {
  }

  lemma PackedNone(f: Field, items: seq<Value>)
    requires items == []
    ensures EncPacked(f, items) == Some([]) && EncUnpacked(f, items) == Some([])
  {
  }

  lemma UnpackedFirst(f: Field, items: seq<Value>)
    requires items != []
    ensures EncUnpacked(f, items) == Then(EncTagged(f, items[0]), EncUnpacked(f, items[1..]))
  {
  }

  /** The loop over the items of an array that cannot be packed. */
  method EncodeUnpackedItems(stream: OStream, f: Field, items: seq<Value>) returns (ok: bool)
    requires ValidSnap(stream.Now()) && ValidField(f)
    requires forall k :: 0 <= k < |items| ==> TypedValue(f.ltype, f.dataSize, items[k])
    modifies stream, stream.Memory()
    ensures Emitted(old(stream.Now()), stream.Now(), ok, EncUnpacked(f, items))
    decreases f.ltype, 2
  {
    hide Emitted, ValidSnap, EncTagged, Then, TypedValue, ValidField, EncUnpacked;
    ghost var a, done := stream.Now(), Some([]);
    NothingEmitted(a);
    assert items[0..] == items;
    FirstThen(EncUnpacked(f, items));
    var i := 0;
    while i < |items|
      invariant 0 <= i <= |items|
      invariant Emitted(a, stream.Now(), true, done)
      invariant EncUnpacked(f, items) == Then(done, EncUnpacked(f, items[i..]))
    {
      UnpackedFirst(f, items[i..]);
      assert items[i..][1..] == items[i + 1..];
      ghost var x, rest, b := EncTagged(f, items[i]), EncUnpacked(f, items[i + 1..]), stream.Now();
      EmittedValid(a, b, true, done);
      ok := EncodeOne(stream, f, items[i]);
      EmittedTurn(a, b, stream.Now(), ok, done, x, rest);
      if !ok {
        return;
      }
      done := Then(done, x);
      i := i + 1;
    }
    LastThen(done, EncUnpacked(f, items[i..]));
    PackedNone(f, items[i..]);
    ok := true;
  }

  lemma {:induction false} PackedFixedSize(f: Field, items: seq<Value>)
    requires f.ltype.Fixed32? || f.ltype.Fixed64?
    requires forall k :: 0 <= k < |items| ==> TypedValue(f.ltype, f.dataSize, items[k])
    ensures EncPacked(f, items).Some?
    ensures |EncPacked(f, items).value| == (if f.ltype.Fixed32? then 4 else 8) * |items|
    decreases |items|
  {
    hide EncFixed;
    if items != [] {
      PackedFixedSize(f, items[1..]);
    }
  }

  /** The size of a packed array, computed or counted. */
  method PackedSize(f: Field, items: seq<Value>) returns (ok: bool, size: nat)
    requires ValidField(f) && f.ltype.Packable()
    requires forall k :: 0 <= k < |items| ==> TypedValue(f.ltype, f.dataSize, items[k])
    ensures ok <==> EncPacked(f, items).Some?
    ensures ok ==> size == |EncPacked(f, items).value|
    decreases f.ltype, 2
  {
    hide Emitted, ValidSnap, EncPacked, TypedValue, ValidField;
    if f.ltype.Fixed32? || f.ltype.Fixed64? {
      PackedFixedSize(f, items);
      return true, if f.ltype.Fixed32? then 4 * |items| else 8 * |items|;
    }
    var sizing := new OStream.Sizing();
    ghost var s := sizing.Now();
    ok := EncodePackedItems(sizing, f, items);
    SizingDone(s, sizing.Now(), ok, EncPacked(f, items));
    size := sizing.bytesWritten;
  }

  /** The second half of a packed array: its size and its items. */
  method EncodePacked(stream: OStream, f: Field, items: seq<Value>) returns (ok: bool)
    requires ValidSnap(stream.Now()) && ValidField(f) && f.ltype.Packable() && Countable(EncPacked(f, items))
    requires forall k :: 0 <= k < |items| ==> TypedValue(f.ltype, f.dataSize, items[k])
    modifies stream, stream.Memory()
    ensures Emitted(old(stream.Now()), stream.Now(), ok, Delimit(EncPacked(f, items)))
    decreases f.ltype, 3
  {
    hide Emitted, ValidSnap, EncPacked, EncVarint, Then, TypedValue, ValidField;
    ghost var a, e := stream.Now(), EncPacked(f, items);
    var size;
    ok, size := PackedSize(f, items);
    if !ok {
      NothingFailed(a);
      return;
    }
    ok := EncodeVarint(stream, size);
    ghost var b := stream.Now();
    DelimitParts(e.value);
    if !ok {
      FailedThen(a, b, Some(EncVarint(size)), e);
      return;
    }
    EmittedValid(a, b, true, Some(EncVarint(size)));
    if stream.buf == null {
      ok := stream.Count(e.value, size);
    } else {
      ok := EncodePackedItems(stream, f, items);
    }
    EmittedThen(a, b, stream.Now(), ok, Some(EncVarint(size)), e);
  }

  /** encode_array */
  method EncodeArray(stream: OStream, f: Field, items: seq<Value>, count: nat) returns (ok: bool)
    requires ValidSnap(stream.Now()) && ValidField(f) && f.htype.Repeated? && |items| == f.arraySize
    requires forall k :: 0 <= k < count && k < |items| ==> TypedValue(f.ltype, f.dataSize, items[k])
    requires f.ltype.Packable() && count <= |items| ==> Countable(EncPacked(f, items[..count]))
    modifies stream, stream.Memory()
    ensures Emitted(old(stream.Now()), stream.Now(), ok, if count <= |items| then EncArray(f, items[..count]) else None)
    decreases f.ltype, 4
  {
    hide Emitted, ValidSnap, EncPacked, EncUnpacked, EncTag, EncString, Then, TypedValue, ValidField;
    ghost var a := stream.Now();
    if count == 0 {
      NothingEmitted(a);
      return true;
    }
    if count > f.arraySize {
      NothingFailed(a);
      return false;
    }
    var present := items[..count];
    if !f.ltype.Packable() {
      ok := EncodeUnpackedItems(stream, f, present);
      return;
    }
    ghost var tag, rest := Some(EncTag(WT_STRING, f.tag)), Delimit(EncPacked(f, present));
    DataSizeFits(f);
    ArrayParts(f, present);
    ok := EncodeTag(stream, WT_STRING, f.tag);
    ghost var b := stream.Now();
    if !ok {
      FailedThen(a, b, tag, rest);
      return;
    }
    EmittedValid(a, b, true, tag);
    ok := EncodePacked(stream, f, present);
    EmittedThen(a, b, stream.Now(), ok, tag, rest);
  }

  lemma ArrayParts(f: Field, items: seq<Value>)
    requires items != [] && |items| <= f.arraySize && f.ltype.Packable()
    ensures EncArray(f, items) == Then(Some(EncTag(WT_STRING, f.tag)), Delimit(EncPacked(f, items)))
  {
    hide EncTag, EncString, EncPacked;
  }

  /** encode_basic_field */
  method EncodeField(stream: OStream, f: Field, s: Slot, which: map<nat, nat>) returns (ok: bool)
    requires ValidSnap(stream.Now()) && ValidField(f) && TypedSlot(f, s, which)
    modifies stream, stream.Memory()
    ensures Emitted(old(stream.Now()), stream.Now(), ok, EncField(f, s, which))
    decreases f
  {
    hide Emitted, ValidSnap, EncArray, EncPacked, EncTagged, TypedValue, ValidDescriptor, ShapedValue;
    match f.htype
    case Required =>
      ok := EncodeOne(stream, f, s.value);
    case Optional =>
      if s.has {
        ok := EncodeOne(stream, f, s.value);
      } else {
        NothingEmitted(stream.Now());
        ok := true;
      }
    case Repeated =>
      ok := EncodeArray(stream, f, s.items, s.count);
    case OneOf(g) =>
      if which[g] == f.tag {
        ok := EncodeOne(stream, f, s.value);
      } else {
        NothingEmitted(stream.Now());
        ok := true;
      }
  }

  lemma FieldAt(fields: seq<Field>, m: Message, i: nat)
    requires ValidDescriptor(fields) && TypedMessage(fields, m) && i < |fields|
    ensures ValidField(fields[i]) && |m.slots| == |fields| && TypedSlot(fields[i], m.slots[i], m.which)
    ensures EncFrom(fields, m, i) == Then(EncField(fields[i], m.slots[i], m.which), EncFrom(fields, m, i + 1))
  {
    hide ValidField, TypedSlot, EncField, DistinctTags;
  }

  /** pb_encode */
  method Encode(stream: OStream, fields: seq<Field>, m: Message) returns (ok: bool)
    requires ValidSnap(stream.Now()) && ValidDescriptor(fields) && TypedMessage(fields, m)
    modifies stream, stream.Memory()
    ensures Emitted(old(stream.Now()), stream.Now(), ok, EncMessage(fields, m))
    decreases fields, 2
  {
    hide Emitted, ValidSnap, EncField, EncFrom, Then, ValidDescriptor, TypedMessage, NonzeroTags, DistinctTags,
      DataAt, SizeAt, RequiredBefore;
    ghost var a, done := stream.Now(), Some([]);
    NothingEmitted(a);
    FieldsEnd(fields, m);
    TagsNonzero(fields);
    var iter := new FieldIter(fields, 0);
    var more := iter.Begin();
    FirstThen(EncFrom(fields, m, 0));
    while more
      invariant iter.Valid() && iter.fields == fields && fresh(iter)
      invariant Emitted(a, stream.Now(), true, done)
      invariant EncMessage(fields, m) == Then(done, EncFrom(fields, m, if more then iter.pos else |fields|))
      invariant more ==> iter.pos < |fields|
      decreases more, |fields| - iter.pos
    {
      var i := iter.pos;
      FieldAt(fields, m, i);
      ghost var x, rest, b := EncField(fields[i], m.slots[i], m.which), EncFrom(fields, m, i + 1), stream.Now();
      EmittedValid(a, b, true, done);
      ok := EncodeField(stream, fields[i], m.slots[i], m.which);
      EmittedTurn(a, b, stream.Now(), ok, done, x, rest);
      if !ok {
        return;
      }
      done := Then(done, x);
      more := iter.Next();
    }
    LastThen(done, EncFrom(fields, m, |fields|));
    ok := true;
  }
}
