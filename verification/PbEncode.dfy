/** lib/nanopb-0.3.9.3/pb_encode.c. First the bytes an encoding consists of, as functions of the
    descriptor and the message; then the code, which produces them on a stream. */
module PbEncode {
  import opened Bytes
  import opened Powers
  import opened PbWire
  import opened PbTypes

  // ----- The encoding as a function -----

  function Then(a: Option<seq<byte>>, b: Option<seq<byte>>): Option<seq<byte>> {
    if a.Some? && b.Some? then Some(a.value + b.value) else None
  }

  lemma ThenAssoc(a: Option<seq<byte>>, b: Option<seq<byte>>, c: Option<seq<byte>>)
    ensures Then(Then(a, b), c) == Then(a, Then(b, c))
  {
    if a.Some? && b.Some? && c.Some? {
      Assoc(a.value, b.value, c.value);
    }
  }

  lemma NothingThen(e: Option<seq<byte>>)
    ensures Then(Some([]), e) == e && Then(e, Some([])) == e
  {
    if e.Some? {
      NoBytes(e.value);
    }
  }

  function WireType(lt: LType): nat {
    match lt
    case Varint => WT_VARINT
    case UVarint => WT_VARINT
    case SVarint => WT_VARINT
    case Fixed32 => WT_32BIT
    case Fixed64 => WT_64BIT
    case _ => WT_STRING
  }

  /** pb_encode_tag */
  function EncTag(wire: nat, tag: nat): seq<byte> { EncVarint(tag * 8 + wire) }

  /** pb_encode_string */
  function EncString(b: seq<byte>): seq<byte> { EncVarint(|b|) + b }

  /** The field encoders; None where the code returns an error. */
  function EncValue(lt: LType, dataSize: nat, v: Value): Option<seq<byte>>
    decreases lt, 0
  {
    match lt
    case Varint =>
      if v.Num? && dataSize in {1, 2, 4, 8} && -B63 <= v.n < B63 then Some(EncVarint(ToUnsigned(v.n))) else None
    case UVarint =>
      if v.Num? && dataSize in {1, 2, 4, 8} && v.n >= 0 then Some(EncVarint(v.n)) else None
    case SVarint =>
      if v.Num? && dataSize in {1, 2, 4, 8} then Some(EncVarint(ZigZag(v.n))) else None
    case Fixed32 =>
      if v.Num? && v.n >= 0 then Some(EncFixed(v.n, 4)) else None
    case Fixed64 =>
      if v.Num? && v.n >= 0 then Some(EncFixed(v.n, 8)) else None
    case BytesArray =>
      if v.Blob? && |v.bytes| + BYTES_OFFSET <= dataSize then Some(EncString(v.bytes)) else None
    case CharArray =>
      if v.Blob? then Some(EncString(CString(v.bytes, dataSize))) else None
    case FixedLengthBytes =>
      if v.Blob? && |v.bytes| == dataSize then Some(EncString(v.bytes)) else None
    case Submessage(fields) =>
      if v.Msg? then
        match EncMessage(fields, v.message)
        case None => None
        case Some(e) => Some(EncString(e))
      else None
  }

  /** The items of an array from k on, without tags: the contents of a packed array. */
  function EncPacked(f: Field, items: seq<Value>): Option<seq<byte>>
    decreases f.ltype, |items| + 1
  {
    if items == [] then Some([])
    else Then(EncValue(f.ltype, f.dataSize, items[0]), EncPacked(f, items[1..]))
  }

  /** A field with its tag. */
  function EncTagged(f: Field, v: Value): Option<seq<byte>>
    decreases f.ltype, 1
  {
    Then(Some(EncTag(WireType(f.ltype), f.tag)), EncValue(f.ltype, f.dataSize, v))
  }

  function EncUnpacked(f: Field, items: seq<Value>): Option<seq<byte>>
    decreases f.ltype, |items| + 2
  {
    if items == [] then Some([])
    else Then(EncTagged(f, items[0]), EncUnpacked(f, items[1..]))
  }

  /** encode_array */
  function EncArray(f: Field, items: seq<Value>): Option<seq<byte>>
    decreases f.ltype, |items| + 3
  {
    if items == [] then Some([])
    else if |items| > f.arraySize then None
    else if f.ltype.Packable() then
      match EncPacked(f, items)
      case None => None
      case Some(p) => Some(EncTag(WT_STRING, f.tag) + EncString(p))
    else EncUnpacked(f, items)
  }

  /** encode_basic_field */
  function EncField(f: Field, s: Slot, which: map<nat, nat>): Option<seq<byte>>
    decreases f
  {
    if f.htype.Repeated? then
      if s.Many? && s.count <= |s.items| then EncArray(f, s.items[..s.count]) else None
    else if !s.Single? then None
    else if Present(f, s, which) then EncTagged(f, s.value)
    else Some([])
  }

  /** The fields from i on. */
  function EncFrom(fields: seq<Field>, m: Message, i: nat): Option<seq<byte>>
    decreases fields, |fields| - i
  {
    if i >= |fields| then Some([])
    else if i >= |m.slots| then None
    else Then(EncField(fields[i], m.slots[i], m.which), EncFrom(fields, m, i + 1))
  }

  /** pb_encode */
  function EncMessage(fields: seq<Field>, m: Message): Option<seq<byte>>
    decreases fields, |fields| + 1
  {
    EncFrom(fields, m, 0)
  }

  lemma FieldsEnd(fields: seq<Field>, m: Message)
    ensures EncFrom(fields, m, |fields|) == Some([])
  {
  }

  // ----- Encoding an in-range message succeeds -----

  lemma {:induction false} ValueEncodes(lt: LType, dataSize: nat, v: Value)
    requires InRangeValue(lt, dataSize, v)
    ensures EncValue(lt, dataSize, v).Some?
    decreases lt, 0
  {
    hide Pow2, EncVarint, EncFixed, CString;
    if lt.Submessage? {
      MessageEncodes(lt.fields, v.message);
    } else if lt.Varint? {
      SignedRoundTrip(v.n, 8 * dataSize);
    }
  }

  lemma {:induction false} ItemsEncode(f: Field, items: seq<Value>)
    requires forall k :: 0 <= k < |items| ==> InRangeValue(f.ltype, f.dataSize, items[k])
    ensures EncPacked(f, items).Some? && EncUnpacked(f, items).Some?
    decreases f.ltype, |items| + 1
  {
    hide InRangeValue, EncValue, EncTag;
    if items != [] {
      ValueEncodes(f.ltype, f.dataSize, items[0]);
      ItemsEncode(f, items[1..]);
    }
  }

  lemma {:induction false} FieldEncodes(f: Field, s: Slot, which: map<nat, nat>)
    requires InRangeSlot(f, s, which)
    ensures EncField(f, s, which).Some?
    decreases f
  {
    hide InRangeValue, EncValue, EncTag, EncPacked, EncUnpacked;
    if f.htype.Repeated? {
      ItemsEncode(f, s.items[..s.count]);
    } else if Present(f, s, which) {
      ValueEncodes(f.ltype, f.dataSize, s.value);
    }
  }

  lemma {:induction false} FieldsEncode(fields: seq<Field>, m: Message, i: nat)
    requires InRangeMessage(fields, m) && i <= |fields|
    ensures EncFrom(fields, m, i).Some?
    decreases fields, |fields| - i
  {
    hide InRangeSlot, EncField, WhichInRange;
    if i < |fields| {
      FieldEncodes(fields[i], m.slots[i], m.which);
      FieldsEncode(fields, m, i + 1);
    }
  }

  /** pb_encode refuses no in-range message. */
  lemma MessageEncodes(fields: seq<Field>, m: Message)
    requires InRangeMessage(fields, m)
    ensures EncMessage(fields, m).Some?
    decreases fields, |fields| + 1
  {
    FieldsEncode(fields, m, 0);
  }

  // ----- The size of an encoding -----

  function Length(e: Option<seq<byte>>): nat { if e.Some? then |e.value| else 0 }

  /** How many bytes the fields of a message take together. */
  function Sizes(fields: seq<Field>, slots: seq<Slot>, which: map<nat, nat>): nat {
    if fields == [] || slots == [] then 0
    else Length(EncField(fields[0], slots[0], which)) + Sizes(fields[1..], slots[1..], which)
  }

  lemma {:induction false} EncFromSize(fields: seq<Field>, m: Message, i: nat)
    requires i <= |fields| == |m.slots| && EncFrom(fields, m, i).Some?
    ensures |EncFrom(fields, m, i).value| == Sizes(fields[i..], m.slots[i..], m.which)
    decreases |fields| - i
  {
    hide EncField;
    if i < |fields| {
      EncFromSize(fields, m, i + 1);
      assert fields[i..][1..] == fields[i + 1..] && m.slots[i..][1..] == m.slots[i + 1..];
    }
  }

  // ----- Structs the encoder can be given -----

  /** What the C types can hold, in range or not; and no part encodes to more bytes than a size can
      count. Only what is present is looked at. */
  ghost predicate TypedMessage(fields: seq<Field>, m: Message)
    decreases fields
  {
    && |m.slots| == |fields|
    && (forall i :: 0 <= i < |fields| ==> TypedSlot(fields[i], m.slots[i], m.which))
  }

  ghost predicate TypedSlot(f: Field, s: Slot, which: map<nat, nat>)
    decreases f, 1
  {
    if f.htype.Repeated? then
      && s.Many? && |s.items| == f.arraySize
      && (forall k :: 0 <= k < s.count && k < |s.items| ==> TypedValue(f.ltype, f.dataSize, s.items[k]))
      && (f.ltype.Packable() && s.count <= |s.items| ==> Countable(EncPacked(f, s.items[..s.count])))
    else
      && s.Single? && (f.htype.OneOf? ==> f.htype.group in which)
      && (Present(f, s, which) ==> TypedValue(f.ltype, f.dataSize, s.value))
  }

  predicate Countable(e: Option<seq<byte>>) { e.Some? ==> |e.value| < B64 }

  ghost predicate TypedValue(lt: LType, dataSize: nat, v: Value)
    decreases lt
  {
    match lt
    case Submessage(fields) =>
      v.Msg? && TypedMessage(fields, v.message) && Countable(EncMessage(fields, v.message))
    case BytesArray => v.Blob? && |v.bytes| <= PB_SIZE_MAX
    case CharArray => v.Blob?
    case FixedLengthBytes => v.Blob? && |v.bytes| == dataSize
    case Varint => v.Num? && (dataSize in {1, 2, 4, 8} ==> FitsSigned(v.n, 8 * dataSize))
    case SVarint => v.Num? && (dataSize in {1, 2, 4, 8} ==> FitsSigned(v.n, 8 * dataSize))
    case UVarint => v.Num? && (dataSize in {1, 2, 4, 8} ==> 0 <= v.n < Pow2(8 * dataSize))
    case Fixed32 => v.Num? && 0 <= v.n < B32
    case Fixed64 => v.Num? && 0 <= v.n < B64
  }

  lemma {:induction false} InRangeIsTyped(fields: seq<Field>, m: Message)
    requires ValidDescriptor(fields) && InRangeMessage(fields, m) && Countable(EncMessage(fields, m))
    ensures TypedMessage(fields, m)
    decreases fields
  {
    hide ValidField, EncFrom, InRangeSlot, TypedSlot, DistinctTags;
    MessageEncodes(fields, m);
    forall i | 0 <= i < |fields|
      ensures TypedSlot(fields[i], m.slots[i], m.which)
    {
      FieldEncodes(fields[i], m.slots[i], m.which);
      FieldsEncode(fields, m, 0);
      FieldPart(fields, m, 0, i);
      InRangeSlotTyped(fields[i], m.slots[i], m.which);
    }
  }

  lemma {:induction false} FieldPart(fields: seq<Field>, m: Message, j: nat, i: nat)
    requires j <= i < |fields| == |m.slots| && EncFrom(fields, m, j).Some?
    ensures EncField(fields[i], m.slots[i], m.which).Some?
    ensures |EncField(fields[i], m.slots[i], m.which).value| <= |EncFrom(fields, m, j).value|
    decreases i - j
  {
    hide EncField;
    if j < i {
      FieldPart(fields, m, j + 1, i);
    }
  }

  lemma {:induction false} ItemPart(f: Field, items: seq<Value>, k: nat)
    requires k < |items| && EncUnpacked(f, items).Some?
    ensures EncValue(f.ltype, f.dataSize, items[k]).Some?
    ensures |EncValue(f.ltype, f.dataSize, items[k]).value| <= |EncUnpacked(f, items).value|
    decreases k
  {
    hide EncValue, EncTag;
    if k > 0 {
      ItemPart(f, items[1..], k - 1);
    }
  }

  lemma {:induction false} InRangeSlotTyped(f: Field, s: Slot, which: map<nat, nat>)
    requires ValidField(f) && InRangeSlot(f, s, which) && (f.htype.OneOf? ==> f.htype.group in which)
    requires EncField(f, s, which).Some? && |EncField(f, s, which).value| < B64
    ensures TypedSlot(f, s, which)
    decreases f, 1
  {
    hide InRangeValue, TypedValue, ValidDescriptor, EncValue, EncPacked, EncUnpacked, EncVarint, ShapedValue;
    if f.htype.Repeated? {
      NoItems(f);
      forall k | 0 <= k < s.count ensures TypedValue(f.ltype, f.dataSize, s.items[k]) {
        if !f.ltype.Packable() {
          ItemPart(f, s.items[..s.count], k);
        }
        InRangeValueTyped(f.ltype, f.dataSize, s.items[k]);
      }
    } else if Present(f, s, which) {
      InRangeValueTyped(f.ltype, f.dataSize, s.value);
    }
  }

  lemma NoItems(f: Field)
    ensures EncPacked(f, []) == Some([])
  {
  }

  lemma {:induction false} InRangeValueTyped(lt: LType, dataSize: nat, v: Value)
    requires dataSize <= PB_SIZE_MAX && (lt.Submessage? ==> ValidDescriptor(lt.fields))
    requires InRangeValue(lt, dataSize, v)
    requires lt.Submessage? ==> Countable(EncValue(lt, dataSize, v))
    ensures TypedValue(lt, dataSize, v)
    decreases lt
  {
    hide FitsSigned, Pow2, EncMessage, EncVarint;
    if lt.Submessage? {
      InRangeIsTyped(lt.fields, v.message);
    }
  }
}
