/** What pb_encode (lib/nanopb-0.3.9.3/pb_encode.c) writes, pb_decode (pb_decode.c beside it) reads back. */
module PbRoundTrip {
  import opened Bytes
  import opened Powers
  import opened PbWire
  import opened PbTypes
  import opened PbCommon
  import opened PbEncode
  import opened PbDecode
  import PbUnknown
  import PbSound

  // This law at the centre of nanopb is proved for a reader whose table differs from the writer's, at any
  // level of nesting; with the same table the message comes back.

  // ----- Structs set to their defaults -----

  ghost predicate FreshMessage(fields: seq<Field>, d: Message)
    decreases fields
  {
    && |d.slots| == |fields|
    && (forall i :: 0 <= i < |fields| ==> FreshSlot(fields[i], d.slots[i]))
    && ClearedWhich(fields, d.which)
  }

  ghost predicate ClearedWhich(fields: seq<Field>, which: map<nat, nat>) {
    forall i :: 0 <= i < |fields| && fields[i].htype.OneOf? ==>
      fields[i].htype.group in which && which[fields[i].htype.group] == 0
  }

  /** The value of a field that was not written: the declared default, or zeros. */
  ghost predicate IsDefault(f: Field, v: Value) {
    if f.dflt.Some? then v == f.dflt.value
    else
      match f.ltype
      case BytesArray | CharArray => v == Blob([])
      case FixedLengthBytes => v.Blob? && |v.bytes| == f.dataSize && forall k :: 0 <= k < |v.bytes| ==> v.bytes[k] == 0
      case _ => v == Num(0)
  }

  ghost predicate FreshSlot(f: Field, s: Slot)
    decreases f
  {
    if f.htype.Repeated? then
      s.Many? && s.count == 0 && |s.items| == f.arraySize &&
      forall k :: 0 <= k < |s.items| ==> ShapedValue(f.ltype, f.dataSize, s.items[k])
    else
      && s.Single? && (f.htype.Optional? ==> !s.has)
      && (f.htype.OneOf? ||
          if f.ltype.Submessage? then s.value.Msg? && FreshMessage(f.ltype.fields, s.value.message)
          else IsDefault(f, s.value))
  }

  lemma {:induction false} DefaultSlotFresh(f: Field, s: Slot)
    requires ShapedSlot(f, s)
    ensures FreshSlot(f, DefaultSlot(f, s))
    decreases f, 0
  {
    if f.ltype.Submessage? && !f.htype.Repeated? && !f.htype.OneOf? {
      DefaultsFresh(f.ltype.fields, s.value.message);
    }
  }

  /** pb_message_set_to_defaults, whatever the struct held. */
  lemma {:induction false} DefaultsFresh(fields: seq<Field>, m: Message)
    requires ShapedMessage(fields, m)
    ensures FreshMessage(fields, Defaults(fields, m))
    decreases fields, 1
  {
    hide DefaultSlot, FreshSlot, ShapedSlot, DefaultSlots, ClearWhich;
    forall i | 0 <= i < |fields|
      ensures FreshSlot(fields[i], DefaultSlots(fields, m.slots)[i])
    {
      DefaultSlotsAt(fields, m.slots, i);
      DefaultSlotFresh(fields[i], m.slots[i]);
    }
  }

  // ----- Single values -----

  lemma SignedFits(n: int, bits: nat, wide: nat)
    requires 1 <= bits <= wide && FitsSigned(n, bits)
    ensures FitsSigned(n, wide)
  {
    hide Pow2;
    Pow2Monotone(bits - 1, wide - 1);
  }

  /** Casting to the field's type undoes the widening to 64 bits. */
  lemma NarrowWidened(lt: LType, dataSize: nat, n: int)
    requires lt.Varint? || lt.UVarint? || lt.SVarint?
    requires InRangeValue(lt, dataSize, Num(n))
    ensures lt.Varint? ==> -B63 <= n < B63 && Narrow(lt, dataSize, ToUnsigned(n)) == Some(n)
    ensures lt.UVarint? ==> 0 <= n < B64 && Narrow(lt, dataSize, n) == Some(n)
    ensures lt.SVarint? ==> ZigZag(n) < B64 && Narrow(lt, dataSize, ZigZag(n)) == Some(n)
  {
    hide Pow2, ToSigned;
    Pow2Large();
    if lt.UVarint? {
      Pow2Monotone(8 * dataSize, 64);
    } else {
      SignedFits(n, 8 * dataSize, 64);
      SignedRoundTrip(n, 64);
      if lt.SVarint? {
        ZigZagRoundTrip(n);
      } else if dataSize < 8 {
        SignedFits(n, 8 * dataSize, 32);
        SignedRoundTrip(n, 32);
      }
    }
  }

  lemma NumRoundTrip(lt: LType, dataSize: nat, n: int, rest: seq<byte>)
    requires lt.Packable() && InRangeValue(lt, dataSize, Num(n)) && EncValue(lt, dataSize, Num(n)).Some?
    ensures
      var e := EncValue(lt, dataSize, Num(n)).value;
      DecNum(lt, dataSize, e + rest) == Some((n, |e|))
  {
    hide Narrow, Pow2, EncVarint, EncFixed, DecVarint64, FixedValue;
    var e := EncValue(lt, dataSize, Num(n)).value;
    Pow2Large();
    if lt.Fixed32? || lt.Fixed64? {
      FixedRoundTrip(n, |e|);
      assert (e + rest)[..|e|] == e;
    } else {
      NarrowWidened(lt, dataSize, n);
      Varint64RoundTrip(if lt.Varint? then ToUnsigned(n) else if lt.UVarint? then n else ZigZag(n), rest);
    }
  }

  /** A length-delimited string is found where it was put. */
  lemma StringRoundTrip(b: seq<byte>, rest: seq<byte>)
    requires |b| < B32
    ensures
      var x := EncString(b) + rest;
      var n := |EncVarint(|b|)|;
      && DecVarint32(x) == Some((|b|, n)) && n + |b| == |EncString(b)| <= |x|
      && x[n..n + |b|] == b && DelimitedEnd(x) == Some(|EncString(b)|) && Delimited(x) == b
  {
    hide EncVarint, DecVarint32;
    var t := EncVarint(|b|);
    Assoc(t, b, rest);
    Varint32RoundTrip(|b|, b + rest);
    var x := t + (b + rest);
    assert x[|t|..|t| + |b|] == b;
  }

  lemma {:induction false} WholeString(b: seq<byte>, max: nat)
    requires ZeroFree(b) && |b| <= max
    ensures CString(b, max) == b
    decreases |b|
  {
    if b != [] {
      ZeroFreeSlice(b, 1, |b|);
      WholeString(b[1..], max - 1);
      assert b == [b[0]] + b[1..];
    }
  }

  lemma BlobRoundTrip(lt: LType, dataSize: nat, b: seq<byte>, rest: seq<byte>)
    requires lt.BytesArray? || lt.CharArray? || lt.FixedLengthBytes?
    requires dataSize <= PB_SIZE_MAX && InRangeValue(lt, dataSize, Blob(b)) && EncValue(lt, dataSize, Blob(b)).Some?
    ensures
      var e := EncValue(lt, dataSize, Blob(b)).value;
      e == EncString(b) && DecBlob(lt, dataSize, e + rest) == Some((b, |e|))
  {
    hide EncVarint, DecVarint32, EncString;
    if lt.CharArray? {
      WholeString(b, dataSize);
      WholeString(b, |b|);
    }
    StringRoundTrip(b, rest);
    if |b| == 0 {
      assert Zeros(0) == b;
    }
  }

  /** A tag is read back, and does not end the message. */
  lemma TagRoundTrip(wire: nat, tag: nat, rest: seq<byte>)
    requires 1 <= tag <= PB_SIZE_MAX && wire < 8
    ensures DecTag(EncTag(wire, tag) + rest) == Tag(tag, wire, |EncTag(wire, tag)|)
  {
    hide EncVarint, DecVarint32;
    Varint32RoundTrip(tag * 8 + wire, rest);
  }

  // ----- One turn of the decoder's loop -----

  lemma TaggedStep(fields: seq<Field>, i: nat, wire: nat, st: Progress, s: seq<byte>)
    requires i < |fields| == |st.message.slots| && DistinctTags(fields) && 1 <= fields[i].tag <= PB_SIZE_MAX && wire < 8
    requires DecSlot(fields[i], wire, st.message.slots[i], s).Some?
    ensures
      var (slot, n) := DecSlot(fields[i], wire, st.message.slots[i], s).value;
      DecLoop(fields, st, EncTag(wire, fields[i].tag) + s) == DecLoop(fields, Stored(fields[i], i, st, slot), s[n..])
  {
    hide EncTag, DecSlot, Stored, DecTag, Find;
    var f := fields[i];
    var (slot, n) := DecSlot(f, wire, st.message.slots[i], s).value;
    var t := EncTag(wire, f.tag);
    TagRoundTrip(wire, f.tag, s);
    FindAt(fields, i);
    assert (t + s)[|t|..] == s;
    assert DecField(fields, i, wire, st, s) == Some((Stored(f, i, st, slot), n));
    assert Turn(fields, st, t + s) == Go(Stored(f, i, st, slot), |t| + n);
    assert (t + s)[|t| + n..] == s[n..];
  }

  lemma StringRoundTripSize(b: seq<byte>)
    ensures |EncString(b)| > |b|
  {
  }

  lemma LoopEnd(fields: seq<Field>, st: Progress)
    ensures DecLoop(fields, st, []) == Some(st)
  {
  }

  lemma EmptyArray(f: Field, s: Slot)
    requires s.Many? && s.count == 0
    ensures EncArray(f, s.items[..s.count]) == Some([])
  {
  }

  lemma Assoc4<T>(a: seq<T>, b: seq<T>, c: seq<T>, d: seq<T>)
    ensures ((a + b) + c) + d == a + (b + (c + d))
  {
    Assoc(a + b, c, d);
    Assoc(a, b, c + d);
  }

  // ----- Arrays of numbers -----

  /** items with vs written over them from k on. */
  function Overwritten(items: seq<Value>, k: nat, vs: seq<Value>): seq<Value>
    requires k + |vs| <= |items|
  {
    items[..k] + vs + items[k + |vs|..]
  }

  lemma {:induction false} PackedRoundTrip(f: Field, vs: seq<Value>, k: nat, items: seq<Value>)
    requires f.ltype.Packable() && f.dataSize <= PB_SIZE_MAX && k + |vs| <= |items| == f.arraySize
    requires forall j :: 0 <= j < |vs| ==> InRangeValue(f.ltype, f.dataSize, vs[j])
    requires EncPacked(f, vs).Some?
    ensures DecPacked(f, EncPacked(f, vs).value, k, items) == Some(Many(k + |vs|, Overwritten(items, k, vs)))
    decreases |vs|
  {
    hide InRangeValue, EncValue, DecNum, DecPacked, Overwritten;
    OverwrittenFirst(items, k, vs);
    if vs == [] {
      PackedEnd(f, k, items);
    } else {
      var v, rest := vs[0], vs[1..];
      var e, tail := EncValue(f.ltype, f.dataSize, v).value, EncPacked(f, rest).value;
      PackedStep(f, v, k, items, tail);
      PackedRoundTrip(f, rest, k + 1, items[k := v]);
    }
  }

  lemma OverwrittenFirst(items: seq<Value>, k: nat, vs: seq<Value>)
    requires k + |vs| <= |items|
    ensures vs == [] ==> Overwritten(items, k, vs) == items
    ensures vs != [] ==> Overwritten(items[k := vs[0]], k + 1, vs[1..]) == Overwritten(items, k, vs)
  {
  }

  lemma PackedEnd(f: Field, k: nat, items: seq<Value>)
    ensures DecPacked(f, [], k, items) == Some(Many(k, items))
  {
  }

  lemma PackedStep(f: Field, v: Value, k: nat, items: seq<Value>, tail: seq<byte>)
    requires f.ltype.Packable() && k < |items| == f.arraySize
    requires InRangeValue(f.ltype, f.dataSize, v) && EncValue(f.ltype, f.dataSize, v).Some?
    ensures DecPacked(f, EncValue(f.ltype, f.dataSize, v).value + tail, k, items) ==
      DecPacked(f, tail, k + 1, items[k := v])
  {
    hide InRangeValue, EncValue, DecNum;
    var n := PackedNum(f, v);
    var e := EncValue(f.ltype, f.dataSize, v).value;
    NumRoundTrip(f.ltype, f.dataSize, n, tail);
    assert (e + tail)[|e|..] == tail;
  }

  lemma PackedNum(f: Field, v: Value) returns (n: int)
    requires f.ltype.Packable() && InRangeValue(f.ltype, f.dataSize, v)
    ensures v == Num(n)
  {
    hide FitsSigned, Pow2;
    n := v.n;
  }

  ghost predicate ValidType(lt: LType, dataSize: nat) {
    dataSize <= PB_SIZE_MAX && (lt.Submessage? ==> ValidDescriptor(lt.fields))
  }

  lemma DescriptorAt(fields: seq<Field>, i: nat)
    requires ValidDescriptor(fields) && i < |fields|
    ensures DistinctTags(fields) && ValidField(fields[i]) && ValidType(fields[i].ltype, fields[i].dataSize)
    ensures 1 <= fields[i].tag <= PB_SIZE_MAX
  {
    hide DistinctTags, ShapedValue;
  }

  // ----- What an encoder writes can be skipped -----

  /** The values of a field that are present. */
  function PresentValues(f: Field, s: Slot, which: map<nat, nat>): seq<Value> {
    if f.htype.Repeated? then (if s.Many? && s.count <= |s.items| then s.items[..s.count] else [])
    else if s.Single? && Present(f, s, which) then [s.value]
    else []
  }

  /** A submessage's length is a 32-bit number. */
  predicate Counted(lt: LType, v: Value) {
    lt.Submessage? && v.Msg? && EncMessage(lt.fields, v.message).Some? ==>
      |EncMessage(lt.fields, v.message).value| < B32
  }

  lemma VarintSkipped(n: nat)
    ensures SkipField(EncVarint(n), WT_VARINT) == Some(|EncVarint(n)|)
  {
    EncVarintForm(n);
  }

  lemma FixedSkipped(n: nat)
    ensures SkipField(EncFixed(n, 4), WT_32BIT) == Some(4) && SkipField(EncFixed(n, 8), WT_64BIT) == Some(8)
  {
    hide EncFixed;
  }

  lemma StringSkipped(b: seq<byte>)
    requires |b| < B32
    ensures SkipField(EncString(b), WT_STRING) == Some(|EncString(b)|)
  {
    hide EncString, DelimitedEnd;
    StringRoundTrip(b, []);
    NoBytes(EncString(b));
  }

  /** pb_skip_field takes exactly the bytes the field's encoder wrote. */
  lemma ValueSkipped(lt: LType, dataSize: nat, v: Value)
    requires EncValue(lt, dataSize, v).Some? && Counted(lt, v) && (v.Blob? ==> |v.bytes| < B32)
    ensures
      var e := EncValue(lt, dataSize, v).value;
      SkipField(e, WireType(lt)) == Some(|e|)
  {
    hide EncVarint, EncMessage, CString, EncString, SkipField;
    match lt
    case Varint => VarintSkipped(ToUnsigned(v.n));
    case UVarint => VarintSkipped(v.n);
    case SVarint => VarintSkipped(ZigZag(v.n));
    case Fixed32 => FixedSkipped(v.n);
    case Fixed64 => FixedSkipped(v.n);
    case BytesArray => StringSkipped(v.bytes);
    case CharArray => StringSkipped(CString(v.bytes, dataSize));
    case FixedLengthBytes => StringSkipped(v.bytes);
    case Submessage(fields) => StringSkipped(EncMessage(fields, v.message).value);
  }

  /** The strings that fit their arrays are short. */
  lemma BlobsShort(lt: LType, dataSize: nat, v: Value)
    requires InRangeValue(lt, dataSize, v) && dataSize <= PB_SIZE_MAX
    ensures v.Blob? ==> |v.bytes| < B32
  {
    hide InRangeMessage, FitsSigned, Pow2, ZeroFree;
  }

  /** So are arrays of numbers. */
  lemma {:induction false} PackedShort(f: Field, vs: seq<Value>)
    requires f.ltype.Packable() && forall j :: 0 <= j < |vs| ==> InRangeValue(f.ltype, f.dataSize, vs[j])
    requires EncPacked(f, vs).Some?
    ensures |EncPacked(f, vs).value| <= 10 * |vs|
    decreases |vs|
  {
    hide InRangeValue, EncValue;
    if vs != [] {
      NumShort(f.ltype, f.dataSize, vs[0]);
      PackedShort(f, vs[1..]);
    }
  }

  lemma NumShort(lt: LType, dataSize: nat, v: Value)
    requires lt.Packable() && InRangeValue(lt, dataSize, v) && EncValue(lt, dataSize, v).Some?
    ensures |EncValue(lt, dataSize, v).value| <= 10
  {
    hide Pow2, EncVarint, EncFixed, Narrow, FitsSigned;
    if !lt.Fixed32? && !lt.Fixed64? {
      NarrowWidened(lt, dataSize, v.n);
      Varint64RoundTrip(if lt.Varint? then ToUnsigned(v.n) else if lt.UVarint? then v.n else ZigZag(v.n), []);
    }
  }

  /** One tag and one value of an undeclared field. */
  lemma TaggedSkipped(fields: seq<Field>, tag: nat, wire: nat, e: seq<byte>, st: Progress, t: seq<byte>)
    requires 1 <= tag <= PB_SIZE_MAX && wire < 8 && Find(fields, tag).None? && SkipField(e, wire) == Some(|e|)
    ensures DecLoop(fields, st, (EncTag(wire, tag) + e) + t) == DecLoop(fields, st, t)
  {
    hide EncTag, SkipField, DecTag, Find, DecLoop;
    var u := EncTag(wire, tag) + e;
    TagRoundTrip(wire, tag, e);
    assert u[|EncTag(wire, tag)|..] == e;
    PbUnknown.SkippedTurn(fields, st, u, t);
  }

  lemma ValueUnknown(fields: seq<Field>, f: Field, v: Value, st: Progress, t: seq<byte>)
    requires ValidField(f) && Find(fields, f.tag).None? && InRangeValue(f.ltype, f.dataSize, v) && Counted(f.ltype, v)
    requires EncTagged(f, v).Some?
    ensures DecLoop(fields, st, EncTagged(f, v).value + t) == DecLoop(fields, st, t)
  {
    hide InRangeValue, EncValue, EncTag, DecLoop, SkipField, Find, ValidDescriptor, ShapedValue;
    BlobsShort(f.ltype, f.dataSize, v);
    ValueSkipped(f.ltype, f.dataSize, v);
    TaggedSkipped(fields, f.tag, WireType(f.ltype), EncValue(f.ltype, f.dataSize, v).value, st, t);
  }

  lemma {:induction false} ItemsSkipped(fields: seq<Field>, f: Field, vs: seq<Value>, st: Progress, t: seq<byte>)
    requires ValidField(f) && Find(fields, f.tag).None?
    requires forall j :: 0 <= j < |vs| ==> InRangeValue(f.ltype, f.dataSize, vs[j]) && Counted(f.ltype, vs[j])
    requires EncUnpacked(f, vs).Some?
    ensures DecLoop(fields, st, EncUnpacked(f, vs).value + t) == DecLoop(fields, st, t)
    decreases |vs|
  {
    hide InRangeValue, Counted, EncTagged, DecLoop, Find, ValidField;
    if vs == [] {
      NoBytes(t);
    } else {
      var e, tail := EncTagged(f, vs[0]).value, EncUnpacked(f, vs[1..]).value;
      ValueUnknown(fields, f, vs[0], st, tail + t);
      Assoc(e, tail, t);
      ItemsSkipped(fields, f, vs[1..], st, t);
    }
  }

  /** Whatever a field's encoder writes, a decoder that does not know the field moves over it. */
  lemma FieldSkipped(fields: seq<Field>, f: Field, s: Slot, which: map<nat, nat>, st: Progress, t: seq<byte>)
    requires ValidField(f) && Find(fields, f.tag).None? && InRangeSlot(f, s, which) && EncField(f, s, which).Some?
    requires forall j :: 0 <= j < |PresentValues(f, s, which)| ==> Counted(f.ltype, PresentValues(f, s, which)[j])
    ensures DecLoop(fields, st, EncField(f, s, which).value + t) == DecLoop(fields, st, t)
  {
    hide InRangeValue, Counted, EncTagged, EncArray, DecLoop, Find, ValidField;
    if f.htype.Repeated? {
      ArraySkipped(fields, f, PresentValues(f, s, which), st, t);
    } else if Present(f, s, which) {
      assert Counted(f.ltype, PresentValues(f, s, which)[0]);
      ValueUnknown(fields, f, s.value, st, t);
    } else {
      NoBytes(t);
    }
  }

  lemma ArraySkipped(fields: seq<Field>, f: Field, vs: seq<Value>, st: Progress, t: seq<byte>)
    requires ValidField(f) && Find(fields, f.tag).None?
    requires forall j :: 0 <= j < |vs| ==> InRangeValue(f.ltype, f.dataSize, vs[j]) && Counted(f.ltype, vs[j])
    requires EncArray(f, vs).Some?
    ensures DecLoop(fields, st, EncArray(f, vs).value + t) == DecLoop(fields, st, t)
  {
    hide InRangeValue, Counted, EncTag, DecLoop, SkipField, EncPacked, EncUnpacked, Find, EncString, ValidDescriptor,
      ShapedValue;
    if vs == [] {
      NoBytes(t);
    } else if f.ltype.Packable() {
      var p := EncPacked(f, vs).value;
      PackedShort(f, vs);
      StringSkipped(p);
      TaggedSkipped(fields, f.tag, WT_STRING, EncString(p), st, t);
    } else {
      ItemsSkipped(fields, f, vs, st, t);
    }
  }

  // ----- Tables that fit each other -----

  /** Each field the reader knows is written as a field of the same kind, or is not written and need
      not be. */
  ghost predicate Compatible(known: seq<Field>, written: seq<Field>)
    decreases known, 0
  {
    forall j :: 0 <= j < |known| ==> Expected(known[j], written)
  }

  ghost predicate Expected(k: Field, written: seq<Field>)
    decreases k, 1
  {
    match Find(written, k.tag)
    case None => !k.htype.Required?
    case Some(i) => Fits(k, written[i])
  }

  /** A reader's field k for a writer's field f: it may have more room, and it may be optional where f is
      required or in a oneof. */
  ghost predicate Fits(k: Field, f: Field)
    decreases k, 0
  {
    && (k.htype == f.htype || (k.htype.Optional? && !f.htype.Repeated?))
    && (k.htype.Repeated? ==> f.arraySize <= k.arraySize)
    && if k.ltype.Submessage? then f.ltype.Submessage? && Compatible(k.ltype.fields, f.ltype.fields)
       else
         && k.ltype == f.ltype && f.dataSize <= k.dataSize
         && (k.ltype.FixedLengthBytes? ==> f.dataSize == k.dataSize)
  }

  /** Every submessage the reader looks at has a length that is a 32-bit number. */
  ghost predicate Legible(known: seq<Field>, written: seq<Field>, m: Message)
    decreases known, 1
  {
    && |m.slots| == |written|
    && forall i :: 0 <= i < |written| ==> LegibleField(known, written[i], m.slots[i], m.which)
  }

  ghost predicate LegibleField(known: seq<Field>, f: Field, s: Slot, which: map<nat, nat>)
    decreases known, 0
  {
    var vs := PresentValues(f, s, which);
    match Find(known, f.tag)
    case None => forall n :: 0 <= n < |vs| ==> Counted(f.ltype, vs[n])
    case Some(j) => forall n :: 0 <= n < |vs| ==> LegibleValue(known[j], f, vs[n])
  }

  ghost predicate LegibleValue(k: Field, f: Field, v: Value)
    decreases k
  {
    && Counted(f.ltype, v)
    && (k.ltype.Submessage? && f.ltype.Submessage? && v.Msg? ==>
          Legible(k.ltype.fields, f.ltype.fields, v.message))
  }

  // ----- What the reader gets -----

  ghost predicate SourceBefore(written: seq<Field>, i: nat, tag: nat) {
    Find(written, tag).Some? && Find(written, tag).value < i
  }

  /** The reader has a member of oneof g with this tag, and it is one of the first i fields written. */
  ghost predicate MemberBefore(known: seq<Field>, written: seq<Field>, i: nat, g: nat, tag: nat) {
    SourceBefore(written, i, tag) && exists j :: 0 <= j < |known| && known[j].htype == OneOf(g) && known[j].tag == tag
  }

  /** The number of oneof g after the first i fields: zero if the reader lacks the chosen member. */
  ghost function ChosenTag(known: seq<Field>, written: seq<Field>, i: nat, g: nat, which: map<nat, nat>): nat {
    if g in which && MemberBefore(known, written, i, g, which[g]) then which[g] else 0
  }

  ghost predicate WhichUpto(known: seq<Field>, written: seq<Field>, i: nat, which: map<nat, nat>, w: map<nat, nat>) {
    forall j :: 0 <= j < |known| && known[j].htype.OneOf? ==>
      var g := known[j].htype.group;
      g in w && w[g] == ChosenTag(known, written, i, g, which)
  }

  /** r is what a reader has after the first i fields of m: what these hold where it knows them, and the
      defaults elsewhere. */
  ghost predicate ReadUpto(known: seq<Field>, written: seq<Field>, i: nat, m: Message, r: Message)
    decreases known, 0
  {
    && i <= |written| == |m.slots| && |known| == |r.slots|
    && (forall j :: 0 <= j < |known| ==> FieldUpto(known[j], written, i, m, r.slots[j]))
    && WhichUpto(known, written, i, m.which, r.which)
  }

  ghost predicate FieldUpto(k: Field, written: seq<Field>, i: nat, m: Message, t: Slot)
    requires |m.slots| == |written|
    decreases k, 2
  {
    if SourceBefore(written, i, k.tag) then
      var n := Find(written, k.tag).value;
      ReadSlot(k, written[n], m.slots[n], m.which, t)
    else FreshSlot(k, t)
  }

  /** A flag or a count as written, the values that are present as read, and defaults for those that are not. */
  ghost predicate ReadSlot(k: Field, f: Field, s: Slot, which: map<nat, nat>, t: Slot)
    decreases k, 1
  {
    if k.htype.Repeated? then
      s.Many? && t.Many? && s.count == t.count && s.count <= |s.items| && s.count <= |t.items| &&
      forall n :: 0 <= n < s.count ==> ReadValue(k.ltype, f.ltype, s.items[n], t.items[n])
    else
      && s.Single? && t.Single? && (k.htype.Optional? ==> t.has == Present(f, s, which))
      && (if Present(f, s, which) then ReadValue(k.ltype, f.ltype, s.value, t.value) else FreshSlot(k, t))
  }

  ghost predicate ReadValue(k: LType, f: LType, v: Value, w: Value)
    decreases k
  {
    if k.Submessage? then
      f.Submessage? && v.Msg? && w.Msg? && ReadUpto(k.fields, f.fields, |f.fields|, v.message, w.message)
    else v == w
  }

  /** The reader has what was written in the fields it knows. */
  ghost predicate ReadMessage(known: seq<Field>, written: seq<Field>, m: Message, r: Message) {
    ReadUpto(known, written, |written|, m, r)
  }

  // ----- One more field -----

  /** How far the decoder has come. */
  ghost predicate Upto(known: seq<Field>, written: seq<Field>, i: nat, m: Message, st: Progress) {
    && ReadUpto(known, written, i, m, st.message)
    && forall j :: 0 <= j < |known| && known[j].htype.Required? && SourceBefore(written, i, known[j].tag) ==>
      j in st.seen
  }

  lemma NextSource(written: seq<Field>, i: nat, tag: nat)
    requires i < |written| && DistinctTags(written)
    ensures Find(written, tag) == Some(i) <==> written[i].tag == tag
    ensures SourceBefore(written, i + 1, tag) <==> SourceBefore(written, i, tag) || written[i].tag == tag
    ensures written[i].tag == tag ==> !SourceBefore(written, i, tag)
  {
    hide Find;
    FindAt(written, i);
  }

  /** The oneofs after a field that leaves them alone. */
  lemma WhichKept(known: seq<Field>, written: seq<Field>, i: nat, which: map<nat, nat>, w: map<nat, nat>)
    requires i < |written| && DistinctTags(written) && WhichUpto(known, written, i, which, w)
    requires forall j :: 0 <= j < |known| && known[j].htype.OneOf? && known[j].tag == written[i].tag ==>
      !(known[j].htype.group in which && which[known[j].htype.group] == written[i].tag)
    ensures WhichUpto(known, written, i + 1, which, w)
  {
    hide SourceBefore;
    forall j | 0 <= j < |known| && known[j].htype.OneOf?
      ensures
        var g := known[j].htype.group;
        g in w && w[g] == ChosenTag(known, written, i + 1, g, which)
    {
      var g := known[j].htype.group;
      if g in which {
        NextSource(written, i, which[g]);
      }
    }
  }

  lemma WhichStored(known: seq<Field>, written: seq<Field>, i: nat, which: map<nat, nat>, w: map<nat, nat>, j: nat)
    requires i < |written| && j < |known| && DistinctTags(written) && DistinctTags(known)
    requires WhichUpto(known, written, i, which, w) && known[j].tag == written[i].tag && known[j].htype.OneOf?
    requires known[j].htype.group in which && which[known[j].htype.group] == known[j].tag
    ensures WhichUpto(known, written, i + 1, which, w[known[j].htype.group := known[j].tag])
  {
    hide SourceBefore;
    var w' := w[known[j].htype.group := known[j].tag];
    forall l | 0 <= l < |known| && known[l].htype.OneOf?
      ensures
        var g := known[l].htype.group;
        g in w' && w'[g] == ChosenTag(known, written, i + 1, g, which)
    {
      var g := known[l].htype.group;
      if g in which {
        NextSource(written, i, which[g]);
      }
    }
  }

  /** The reader does not know the field. */
  lemma SkippedUpto(known: seq<Field>, written: seq<Field>, i: nat, m: Message, st: Progress)
    requires i < |written| && DistinctTags(written) && Upto(known, written, i, m, st)
    requires Find(known, written[i].tag).None?
    ensures Upto(known, written, i + 1, m, st)
  {
    hide ReadSlot, FreshSlot, SourceBefore, Find, WhichUpto;
    WhichKept(known, written, i, m.which, st.message.which);
    forall j | 0 <= j < |known|
      ensures SourceBefore(written, i + 1, known[j].tag) <==> SourceBefore(written, i, known[j].tag)
      ensures FieldUpto(known[j], written, i + 1, m, st.message.slots[j])
    {
      assert FieldUpto(known[j], written, i, m, st.message.slots[j]);
      NextSource(written, i, known[j].tag);
    }
  }

  /** The field is not there. */
  lemma AbsentUpto(known: seq<Field>, written: seq<Field>, i: nat, m: Message, st: Progress)
    requires i < |written| && DistinctTags(written) && Compatible(known, written) && Upto(known, written, i, m, st)
    requires InRangeSlot(written[i], m.slots[i], m.which) && !Present(written[i], m.slots[i], m.which)
    ensures Upto(known, written, i + 1, m, st)
  {
    hide ReadSlot, FreshSlot, SourceBefore, Find, WhichUpto, Fits, InRangeSlot, Present;
    forall j | 0 <= j < |known|
      ensures FieldUpto(known[j], written, i + 1, m, st.message.slots[j])
      ensures SourceBefore(written, i + 1, known[j].tag) && known[j].htype.Required? ==> j in st.seen
      ensures known[j].htype.OneOf? && known[j].tag == written[i].tag ==>
        !(known[j].htype.group in m.which && m.which[known[j].htype.group] == written[i].tag)
    {
      assert Expected(known[j], written) && FieldUpto(known[j], written, i, m, st.message.slots[j]);
      NextSource(written, i, known[j].tag);
      if known[j].tag == written[i].tag {
        AbsentRead(known[j], written[i], m.slots[i], m.which, st.message.slots[j]);
      }
    }
    WhichKept(known, written, i, m.which, st.message.which);
  }

  lemma AbsentRead(k: Field, f: Field, s: Slot, which: map<nat, nat>, t: Slot)
    requires Fits(k, f) && k.tag == f.tag && InRangeSlot(f, s, which) && !Present(f, s, which) && FreshSlot(k, t)
    ensures ReadSlot(k, f, s, which, t) && !k.htype.Required?
    ensures k.htype.OneOf? ==> !(k.htype.group in which && which[k.htype.group] == f.tag)
  {
    hide InRangeValue, ReadValue, FreshMessage, ShapedValue;
  }

  /** The field has been read into the reader's field j. */
  lemma StoredUpto(known: seq<Field>, written: seq<Field>, i: nat, m: Message, st: Progress, j: nat, slot: Slot)
    requires i < |written| && j < |known| && DistinctTags(written) && DistinctTags(known)
    requires Compatible(known, written) && Upto(known, written, i, m, st) && known[j].tag == written[i].tag
    requires Present(written[i], m.slots[i], m.which)
    requires ReadSlot(known[j], written[i], m.slots[i], m.which, slot)
    ensures Upto(known, written, i + 1, m, Stored(known[j], j, st, slot))
  {
    hide ReadSlot, FreshSlot, SourceBefore, Find, WhichUpto;
    NextSource(written, i, known[j].tag);
    assert Expected(known[j], written) && Fits(known[j], written[i]);
    var st' := Stored(known[j], j, st, slot);
    forall l | 0 <= l < |known|
      ensures FieldUpto(known[l], written, i + 1, m, st'.message.slots[l])
      ensures SourceBefore(written, i + 1, known[l].tag) && known[l].htype.Required? ==> l in st'.seen
      ensures l != j ==> known[l].tag != written[i].tag
    {
      assert FieldUpto(known[l], written, i, m, st.message.slots[l]);
      NextSource(written, i, known[l].tag);
    }
    if known[j].htype.OneOf? {
      WhichStored(known, written, i, m.which, st.message.which, j);
    } else {
      WhichKept(known, written, i, m.which, st.message.which);
    }
  }

  // ----- The mutual induction over the reader's table -----

  /** What dest must be for a value to be decoded into it. */
  ghost predicate Ready(k: Field, dest: Value) {
    k.ltype.Submessage? ==>
      dest.Msg? &&
      if k.htype.Repeated? then ShapedMessage(k.ltype.fields, dest.message)
      else FreshMessage(k.ltype.fields, dest.message)
  }

  /** What the writer's field holds also fits the reader's, and is written in the same bytes. */
  lemma Wider(k: Field, f: Field, v: Value)
    requires Fits(k, f) && !k.ltype.Submessage? && ValidField(k) && InRangeValue(f.ltype, f.dataSize, v)
    ensures InRangeValue(k.ltype, k.dataSize, v)
    ensures EncValue(k.ltype, k.dataSize, v) == EncValue(f.ltype, f.dataSize, v)
  {
    hide Pow2, EncVarint, EncFixed, EncString, CString, ShapedValue;
    if k.ltype.CharArray? {
      WholeString(v.bytes, f.dataSize);
      WholeString(v.bytes, k.dataSize);
    } else if k.ltype.UVarint? {
      Pow2Monotone(8 * f.dataSize, 8 * k.dataSize);
    } else if k.ltype.Varint? || k.ltype.SVarint? {
      SignedFits(v.n, 8 * f.dataSize, 8 * k.dataSize);
    }
  }

  /** Every field decoder inverts the encoder, whatever follows. */
  lemma {:induction false} ValueRead(k: Field, f: Field, dest: Value, v: Value, rest: seq<byte>) returns (w: Value)
    requires ValidField(k) && ValidField(f) && Fits(k, f) && Ready(k, dest)
    requires InRangeValue(f.ltype, f.dataSize, v) && LegibleValue(k, f, v)
    requires EncValue(f.ltype, f.dataSize, v).Some?
    ensures
      var e := EncValue(f.ltype, f.dataSize, v).value;
      DecValue(k.ltype, k.dataSize, k.htype.Repeated?, dest, e + rest) == Some((w, |e|))
    ensures ReadValue(k.ltype, f.ltype, v, w)
    decreases k, 0
  {
    hide DecNum, DecBlob, EncMessage, DecNoInit, Defaults, ShapedMessage, FreshMessage, ValidDescriptor, InRangeMessage,
      EncVarint, DecVarint32, Delimited, DelimitedEnd, FitsSigned, Pow2, CString, EncFixed, ToUnsigned, ZigZag,
      ZeroFree, ShapedValue, Compatible, Legible, ReadUpto;
    if k.ltype.Submessage? {
      hide EncString;
      var start := if k.htype.Repeated? then Defaults(k.ltype.fields, dest.message) else dest.message;
      if k.htype.Repeated? {
        DefaultsFresh(k.ltype.fields, dest.message);
      }
      var e := EncMessage(f.ltype.fields, v.message).value;
      StringRoundTrip(e, rest);
      var r := NoInitReads(k.ltype.fields, f.ltype.fields, v.message, start);
      w := Msg(r);
    } else {
      w := v;
      Wider(k, f, v);
      if k.ltype.Packable() {
        NumRoundTrip(k.ltype, k.dataSize, v.n, rest);
      } else {
        BlobRoundTrip(k.ltype, k.dataSize, v.bytes, rest);
      }
    }
  }

  lemma {:induction false} NoInitReads(known: seq<Field>, written: seq<Field>, m: Message, dest: Message)
    returns (r: Message)
    requires ValidDescriptor(known) && ValidDescriptor(written) && Compatible(known, written)
    requires InRangeMessage(written, m) && Legible(known, written, m) && FreshMessage(known, dest)
    requires EncMessage(written, m).Some?
    ensures DecNoInit(known, dest, EncMessage(written, m).value) == Some(r)
    ensures ReadMessage(known, written, m, r)
    decreases known, 4, 0
  {
    hide ValidDescriptor, InRangeSlot, Compatible, Legible, FreshMessage, EncFrom, DecLoop, Upto;
    var e := EncMessage(written, m).value;
    StartUpto(known, written, m, dest);
    NoBytes(e);
    var st := FieldsRead(known, written, 0, m, Progress(dest, {}), []);
    DoneUpto(known, written, m, st);
    r := st.message;
    LoopEnd(known, st);
  }

  lemma StartUpto(known: seq<Field>, written: seq<Field>, m: Message, dest: Message)
    requires InRangeMessage(written, m) && FreshMessage(known, dest)
    ensures Upto(known, written, 0, m, Progress(dest, {}))
  {
    hide InRangeSlot, FreshSlot, WhichInRange, Find;
    forall j | 0 <= j < |known| ensures FieldUpto(known[j], written, 0, m, dest.slots[j]) {
      assert FreshSlot(known[j], dest.slots[j]);
    }
  }

  lemma DoneUpto(known: seq<Field>, written: seq<Field>, m: Message, st: Progress)
    requires Compatible(known, written) && Upto(known, written, |written|, m, st)
    ensures ReadMessage(known, written, m, st.message) && RequiredSeen(known, st.seen)
  {
    hide FieldUpto, Fits, WhichUpto, RequiredBefore, Find;
  }

  lemma {:induction false} FieldsRead(known: seq<Field>, written: seq<Field>, i: nat, m: Message, st: Progress,
    t: seq<byte>)
    returns (st': Progress)
    requires ValidDescriptor(known) && ValidDescriptor(written) && Compatible(known, written)
    requires InRangeMessage(written, m) && Legible(known, written, m) && Upto(known, written, i, m, st)
    requires EncFrom(written, m, i).Some?
    ensures DecLoop(known, st, EncFrom(written, m, i).value + t) == DecLoop(known, st', t)
    ensures Upto(known, written, |written|, m, st')
    decreases known, 3, |written| - i
  {
    hide ValidDescriptor, InRangeSlot, WhichInRange, Compatible, LegibleField, FieldUpto, DecLoop, WhichUpto, EncField;
    if i == |written| {
      st' := st;
      NoBytes(t);
    } else {
      var e, tail := EncField(written[i], m.slots[i], m.which).value, EncFrom(written, m, i + 1).value;
      Assoc(e, tail, t);
      var next := FieldRead(known, written, i, m, st, tail + t);
      st' := FieldsRead(known, written, i + 1, m, next, t);
    }
  }

  lemma {:induction false} FieldRead(known: seq<Field>, written: seq<Field>, i: nat, m: Message, st: Progress,
    t: seq<byte>)
    returns (st': Progress)
    requires ValidDescriptor(known) && ValidDescriptor(written) && Compatible(known, written)
    requires i < |written| == |m.slots| && Upto(known, written, i, m, st)
    requires InRangeSlot(written[i], m.slots[i], m.which)
    requires LegibleField(known, written[i], m.slots[i], m.which)
    requires EncField(written[i], m.slots[i], m.which).Some?
    ensures DecLoop(known, st, EncField(written[i], m.slots[i], m.which).value + t) == DecLoop(known, st', t)
    ensures Upto(known, written, i + 1, m, st')
    decreases known, 2, 0
  {
    hide InRangeSlot, DecLoop, EncTagged, EncArray, ReadUpto, ReadSlot, Find, Fits, ValidDescriptor, LegibleValue,
      Counted, Upto, ValidField;
    var f, s := written[i], m.slots[i];
    DescriptorAt(written, i);
    if !Present(f, s, m.which) {
      st' := st;
      NoBytes(t);
      AbsentWritten(f, s, m.which);
      AbsentUpto(known, written, i, m, st);
    } else if Find(known, f.tag).None? {
      st' := st;
      FieldSkipped(known, f, s, m.which, st, t);
      SkippedUpto(known, written, i, m, st);
    } else {
      var j := Find(known, f.tag).value;
      DescriptorAt(known, j);
      FreshAt(known, written, i, m, st, j);
      var slot;
      if f.htype.Repeated? {
        slot := ArrayRead(known, j, f, s, m.which, st, t);
      } else {
        assert LegibleValue(known[j], f, PresentValues(f, s, m.which)[0]);
        slot := SingleRead(known, j, f, s, m.which, st, t);
      }
      st' := Stored(known[j], j, st, slot);
      StoredUpto(known, written, i, m, st, j, slot);
    }
  }

  /** The reader's field for the next field written has not been touched. */
  lemma FreshAt(known: seq<Field>, written: seq<Field>, i: nat, m: Message, st: Progress, j: nat)
    requires DistinctTags(written) && Compatible(known, written) && i < |written| && j < |known|
    requires Upto(known, written, i, m, st) && known[j].tag == written[i].tag
    ensures |st.message.slots| == |known| && FreshSlot(known[j], st.message.slots[j]) && Fits(known[j], written[i])
  {
    hide ReadSlot, FreshSlot, Find, WhichUpto, Fits;
    NextSource(written, i, known[j].tag);
    assert Expected(known[j], written) && FieldUpto(known[j], written, i, m, st.message.slots[j]);
  }

  lemma AbsentWritten(f: Field, s: Slot, which: map<nat, nat>)
    requires InRangeSlot(f, s, which) && !Present(f, s, which)
    ensures EncField(f, s, which) == Some([])
  {
    hide InRangeValue, EncTagged, EncArray;
    if f.htype.Repeated? {
      EmptyArray(f, s);
    }
  }

  lemma {:induction false} SingleRead(known: seq<Field>, j: nat, f: Field, s: Slot, which: map<nat, nat>, st: Progress,
    t: seq<byte>)
    returns (slot: Slot)
    requires ValidDescriptor(known) && j < |known| == |st.message.slots| && FreshSlot(known[j], st.message.slots[j])
    requires ValidField(f) && Fits(known[j], f) && f.tag == known[j].tag && !f.htype.Repeated?
    requires InRangeSlot(f, s, which) && Present(f, s, which) && LegibleValue(known[j], f, s.value)
    requires EncField(f, s, which).Some?
    ensures DecLoop(known, st, EncField(f, s, which).value + t) == DecLoop(known, Stored(known[j], j, st, slot), t)
    ensures ReadSlot(known[j], f, s, which, slot)
    decreases known[j], 1, 0
  {
    hide InRangeValue, DecLoop, DecValue, EncValue, EncTag, Stored, FreshMessage, ValidDescriptor, ReadValue, Defaults,
      ShapedMessage, ZeroMessage, ShapedValue, LegibleValue, Compatible;
    var k, dest := known[j], st.message.slots[j];
    DescriptorAt(known, j);
    if k.ltype.Submessage? {
      ZeroShaped(k.ltype.fields);
      DefaultsFresh(k.ltype.fields, ZeroMessage(k.ltype.fields));
    }
    var start :=
      if k.htype.OneOf? && k.ltype.Submessage? then Msg(Defaults(k.ltype.fields, ZeroMessage(k.ltype.fields)))
      else dest.value;
    var tag, e := EncTag(WireType(f.ltype), f.tag), EncValue(f.ltype, f.dataSize, s.value).value;
    var w := ValueRead(k, f, start, s.value, t);
    slot := Single(dest.has || k.htype.Optional?, w);
    assert DecSlot(k, WireType(f.ltype), dest, e + t) == Some((slot, |e|));
    TaggedStep(known, j, WireType(f.ltype), st, e + t);
    Assoc(tag, e, t);
    assert (e + t)[|e|..] == t;
  }

  lemma {:induction false} ItemsRead(known: seq<Field>, j: nat, f: Field, vs: seq<Value>, n: nat, items: seq<Value>,
    st: Progress, t: seq<byte>)
    returns (r: seq<Value>)
    requires ValidDescriptor(known) && j < |known| == |st.message.slots|
    requires ValidField(f) && Fits(known[j], f) && f.tag == known[j].tag
    requires known[j].htype.Repeated? && !known[j].ltype.Packable() && n <= |vs| <= |items| == known[j].arraySize
    requires forall l :: 0 <= l < |vs| ==> InRangeValue(f.ltype, f.dataSize, vs[l])
    requires forall l :: 0 <= l < |vs| ==> LegibleValue(known[j], f, vs[l])
    requires forall l :: 0 <= l < n ==> ReadValue(known[j].ltype, f.ltype, vs[l], items[l])
    requires forall l :: n <= l < |items| ==> ShapedValue(known[j].ltype, known[j].dataSize, items[l])
    requires EncUnpacked(f, vs[n..]).Some?
    ensures
      DecLoop(known, Stored(known[j], j, st, Many(n, items)), EncUnpacked(f, vs[n..]).value + t) ==
      DecLoop(known, Stored(known[j], j, st, Many(|vs|, r)), t)
    ensures |r| == |items| && forall l :: 0 <= l < |vs| ==> ReadValue(known[j].ltype, f.ltype, vs[l], r[l])
    decreases known[j], 1, |vs| - n
  {
    hide InRangeValue, DecLoop, DecValue, EncValue, EncTag, ShapedMessage, FreshMessage, ReadValue, ValidDescriptor,
      LegibleValue, Compatible;
    var k := known[j];
    if n == |vs| {
      r := items;
      NoBytes(t);
    } else {
      var here := Stored(k, j, st, Many(n, items));
      DescriptorAt(known, j);
      var tag, e := EncTag(WireType(f.ltype), f.tag), EncValue(f.ltype, f.dataSize, vs[n]).value;
      assert vs[n..][1..] == vs[n + 1..];
      var tail := EncUnpacked(f, vs[n + 1..]).value;
      var w := ValueRead(k, f, items[n], vs[n], tail + t);
      var slot := Many(n + 1, items[n := w]);
      assert DecSlot(k, WireType(f.ltype), Many(n, items), e + (tail + t)) == Some((slot, |e|));
      TaggedStep(known, j, WireType(f.ltype), here, e + (tail + t));
      Assoc4(tag, e, tail, t);
      assert (e + (tail + t))[|e|..] == tail + t;
      assert Stored(k, j, here, slot) == Stored(k, j, st, slot);
      r := ItemsRead(known, j, f, vs, n + 1, items[n := w], st, t);
    }
  }

  lemma {:induction false} ArrayRead(known: seq<Field>, j: nat, f: Field, s: Slot, which: map<nat, nat>, st: Progress,
    t: seq<byte>)
    returns (slot: Slot)
    requires ValidDescriptor(known) && j < |known| == |st.message.slots| && FreshSlot(known[j], st.message.slots[j])
    requires ValidField(f) && Fits(known[j], f) && f.tag == known[j].tag && f.htype.Repeated?
    requires InRangeSlot(f, s, which) && Present(f, s, which)
    requires forall l :: 0 <= l < |PresentValues(f, s, which)| ==>
      LegibleValue(known[j], f, PresentValues(f, s, which)[l])
    requires EncField(f, s, which).Some?
    ensures DecLoop(known, st, EncField(f, s, which).value + t) == DecLoop(known, Stored(known[j], j, st, slot), t)
    ensures ReadSlot(known[j], f, s, which, slot)
    decreases known[j], 2, 0
  {
    hide InRangeValue, DecLoop, EncValue, EncTag, EncPacked, EncUnpacked, FreshMessage, ValidDescriptor, ReadValue,
      ShapedMessage, ShapedValue, DecPacked, LegibleValue, Compatible;
    var k, dest, vs := known[j], st.message.slots[j], s.items[..s.count];
    DescriptorAt(known, j);
    if k.ltype.Packable() {
      slot := PackedArrayRead(known, j, f, vs, st, t);
      forall l | 0 <= l < s.count ensures ReadValue(k.ltype, f.ltype, s.items[l], slot.items[l]) {
        SameNum(k.ltype, f.ltype, vs[l]);
      }
    } else {
      assert vs[0..] == vs == PresentValues(f, s, which);
      assert Stored(k, j, st, Many(0, dest.items)) == st;
      var r := ItemsRead(known, j, f, vs, 0, dest.items, st, t);
      slot := Many(|vs|, r);
    }
  }

  lemma SameNum(k: LType, f: LType, v: Value)
    requires k.Packable()
    ensures ReadValue(k, f, v, v)
  {
  }

  lemma {:induction false} PackedWider(k: Field, f: Field, vs: seq<Value>)
    requires Fits(k, f) && k.ltype.Packable() && ValidField(k)
    requires forall l :: 0 <= l < |vs| ==> InRangeValue(f.ltype, f.dataSize, vs[l])
    ensures EncPacked(k, vs) == EncPacked(f, vs)
    ensures forall l :: 0 <= l < |vs| ==> InRangeValue(k.ltype, k.dataSize, vs[l])
    decreases |vs|
  {
    hide InRangeValue, EncValue, ShapedValue;
    if vs != [] {
      Wider(k, f, vs[0]);
      PackedWider(k, f, vs[1..]);
    }
  }

  lemma PackedArrayRead(known: seq<Field>, j: nat, f: Field, vs: seq<Value>, st: Progress, t: seq<byte>)
    returns (slot: Slot)
    requires ValidDescriptor(known) && j < |known| == |st.message.slots| && FreshSlot(known[j], st.message.slots[j])
    requires ValidField(f) && Fits(known[j], f) && f.tag == known[j].tag
    requires known[j].htype.Repeated? && known[j].ltype.Packable() && 0 < |vs| <= f.arraySize
    requires forall l :: 0 <= l < |vs| ==> InRangeValue(f.ltype, f.dataSize, vs[l])
    requires EncArray(f, vs).Some?
    ensures DecLoop(known, st, EncArray(f, vs).value + t) == DecLoop(known, Stored(known[j], j, st, slot), t)
    ensures slot.Many? && slot.count == |vs| && |slot.items| == known[j].arraySize
    ensures forall l :: 0 <= l < |vs| ==> slot.items[l] == vs[l]
  {
    hide InRangeValue, DecLoop, EncTag, EncString, EncPacked, ValidDescriptor, ShapedValue, DecPacked, Delimited,
      DelimitedEnd;
    var k, dest := known[j], st.message.slots[j];
    DescriptorAt(known, j);
    PackedWider(k, f, vs);
    var tag, p := EncTag(WT_STRING, f.tag), EncPacked(f, vs).value;
    var e := EncString(p);
    PackedShort(f, vs);
    StringRoundTrip(p, t);
    PackedRoundTrip(k, vs, 0, dest.items);
    slot := Many(|vs|, Overwritten(dest.items, 0, vs));
    assert DecSlot(k, WT_STRING, dest, e + t) == Some((slot, |e|));
    TaggedStep(known, j, WT_STRING, st, e + t);
    Assoc(tag, e, t);
    assert (e + t)[|e|..] == t;
  }

  // ----- The law -----

  /** Any reader whose table fits the writer's: decoding the encoding of any in-range message, into a
      struct with any contents, succeeds; the fields the reader knows have what was written, those that
      were not written have their defaults, and those it does not know are moved over. So it is at
      every level of nesting, whether the reader's table is the older or the newer one. */
  lemma OtherTableReads(known: seq<Field>, written: seq<Field>, m: Message, dest: Message)
    requires ValidDescriptor(known) && ValidDescriptor(written) && Compatible(known, written)
    requires InRangeMessage(written, m) && Legible(known, written, m) && ShapedMessage(known, dest)
    ensures EncMessage(written, m).Some?
    ensures
      var r := DecMessage(known, dest, EncMessage(written, m).value);
      r.Some? && ReadMessage(known, written, m, r.value)
  {
    hide ValidDescriptor, InRangeMessage, ShapedMessage, Defaults, EncMessage, DecNoInit, Compatible, Legible,
      ReadMessage, FreshMessage;
    MessageEncodes(written, m);
    DefaultsFresh(known, dest);
    var r := NoInitReads(known, written, m, Defaults(known, dest));
  }

  /** A table fits itself. */
  lemma {:induction false} FitsItself(fields: seq<Field>)
    requires ValidDescriptor(fields)
    ensures Compatible(fields, fields)
    decreases fields
  {
    hide DistinctTags, ValidField, Find, Fits;
    forall j | 0 <= j < |fields| ensures Expected(fields[j], fields) {
      FindAt(fields, j);
      FieldFitsItself(fields[j]);
    }
  }

  lemma {:induction false} FieldFitsItself(f: Field)
    requires ValidField(f)
    ensures Fits(f, f)
    decreases f
  {
    hide ValidDescriptor, ShapedValue, Compatible;
    if f.ltype.Submessage? {
      FitsItself(f.ltype.fields);
    }
  }

  /** With the same table, what is read is the message, up to the contents of absent fields. */
  lemma {:induction false} ReadIsSame(fields: seq<Field>, m: Message, r: Message)
    requires ValidDescriptor(fields) && InRangeMessage(fields, m) && ReadMessage(fields, fields, m, r)
    ensures SameMessage(fields, m, r)
    decreases fields, 2
  {
    hide Find, DistinctTags, InRangeSlot, ReadSlot, SameSlot, ValidField;
    forall i | 0 <= i < |fields| ensures SameSlot(fields[i], m.slots[i], r.slots[i], m.which) {
      FindAt(fields, i);
      assert FieldUpto(fields[i], fields, |fields|, m, r.slots[i]);
      SlotIsSame(fields[i], m.slots[i], m.which, r.slots[i]);
    }
    forall i | 0 <= i < |fields| && fields[i].htype.OneOf?
      ensures
        var g := fields[i].htype.group;
        g in m.which && g in r.which && m.which[g] == r.which[g]
    {
      var g := fields[i].htype.group;
      assert WhichInRange(fields, m.which, g);
      if m.which[g] != 0 {
        var k :| 0 <= k < |fields| && fields[k].htype == OneOf(g) && fields[k].tag == m.which[g];
        FindAt(fields, k);
      }
    }
  }

  lemma {:induction false} SlotIsSame(f: Field, s: Slot, which: map<nat, nat>, t: Slot)
    requires ValidField(f) && InRangeSlot(f, s, which) && ReadSlot(f, f, s, which, t)
    ensures SameSlot(f, s, t, which)
    decreases f, 1
  {
    hide InRangeMessage, ValidDescriptor, ReadUpto, SameMessage, ShapedValue, FitsSigned, Pow2, ZeroFree;
    if f.ltype.Submessage? {
      if f.htype.Repeated? {
        forall n | 0 <= n < s.count ensures SameValue(f.ltype, s.items[n], t.items[n]) {
          assert InRangeValue(f.ltype, f.dataSize, s.items[n]) && ReadValue(f.ltype, f.ltype, s.items[n], t.items[n]);
          ReadIsSame(f.ltype.fields, s.items[n].message, t.items[n].message);
        }
      } else if Present(f, s, which) {
        ReadIsSame(f.ltype.fields, s.value.message, t.value.message);
      }
    }
  }

  /** Decoding the encoding of any in-range message, into a struct with any contents, succeeds and
      gives the same message, up to the contents of absent fields. The lengths of submessages are
      32-bit numbers. */
  lemma DecodeInverts(fields: seq<Field>, m: Message, dest: Message)
    requires ValidDescriptor(fields) && InRangeMessage(fields, m) && ShapedMessage(fields, dest)
    requires Legible(fields, fields, m)
    ensures EncMessage(fields, m).Some?
    ensures
      var r := DecMessage(fields, dest, EncMessage(fields, m).value);
      r.Some? && SameMessage(fields, m, r.value)
  {
    hide ValidDescriptor, InRangeMessage, ShapedMessage, EncMessage, DecMessage, Compatible, Legible, ReadMessage,
      SameMessage;
    FitsItself(fields);
    OtherTableReads(fields, fields, m, dest);
    ReadIsSame(fields, m, DecMessage(fields, dest, EncMessage(fields, m).value).value);
  }

  /** What was decoded can be encoded again, and decodes to the same message: encoding what was decoded from any
      input, however it was written, loses nothing. */
  lemma DecodedReencodes(fields: seq<Field>, m: Message, s: seq<byte>, dest: Message)
    requires ValidDescriptor(fields) && ShapedMessage(fields, m) && ShapedMessage(fields, dest)
    requires DecMessage(fields, m, s).Some?
    requires Legible(fields, fields, DecMessage(fields, m, s).value)
    ensures EncMessage(fields, DecMessage(fields, m, s).value).Some?
    ensures
      var r := DecMessage(fields, m, s).value;
      var r' := DecMessage(fields, dest, EncMessage(fields, r).value);
      r'.Some? && SameMessage(fields, r, r'.value)
  {
    hide DecMessage, EncMessage, ValidDescriptor, ShapedMessage, InRangeMessage, SameMessage, Legible;
    PbSound.AnyDecodeInRange(fields, m, s);
    DecodeInverts(fields, DecMessage(fields, m, s).value, dest);
  }

  // ----- Messages whose submessages have 32-bit lengths -----

  /** All messages that are shorter than 2^32 bytes as a whole. */
  lemma {:induction false} ShortIsLegible(known: seq<Field>, written: seq<Field>, m: Message)
    requires |m.slots| == |written| && EncMessage(written, m).Some? && |EncMessage(written, m).value| < B32
    requires InRangeMessage(written, m)
    ensures Legible(known, written, m)
    decreases known, 2
  {
    hide InRangeSlot, LegibleField, EncFrom, WhichInRange;
    forall i | 0 <= i < |written| ensures LegibleField(known, written[i], m.slots[i], m.which) {
      FieldPart(written, m, 0, i);
      ShortFieldLegible(known, written[i], m.slots[i], m.which);
    }
  }

  lemma {:induction false} ShortFieldLegible(known: seq<Field>, f: Field, s: Slot, which: map<nat, nat>)
    requires InRangeSlot(f, s, which) && EncField(f, s, which).Some? && |EncField(f, s, which).value| < B32
    ensures LegibleField(known, f, s, which)
    decreases known, 1
  {
    hide InRangeValue, EncValue, EncTag, EncUnpacked, Find, Counted, Legible;
    var vs := PresentValues(f, s, which);
    forall n | 0 <= n < |vs|
      ensures Counted(f.ltype, vs[n])
      ensures Find(known, f.tag).Some? ==> LegibleValue(known[Find(known, f.tag).value], f, vs[n])
    {
      if f.ltype.Submessage? {
        if f.htype.Repeated? {
          ItemPart(f, vs, n);
        }
        SubmessageCounted(f.ltype, f.dataSize, vs[n]);
        if Find(known, f.tag).Some? {
          ShortValueLegible(known[Find(known, f.tag).value], f, vs[n]);
        }
      } else {
        NumberCounted(f.ltype, vs[n]);
      }
    }
  }

  lemma {:induction false} ShortValueLegible(k: Field, f: Field, v: Value)
    requires f.ltype.Submessage? && InRangeValue(f.ltype, f.dataSize, v)
    requires EncValue(f.ltype, f.dataSize, v).Some? && |EncValue(f.ltype, f.dataSize, v).value| < B32
    ensures LegibleValue(k, f, v)
    decreases k
  {
    hide InRangeValue, EncValue, Legible, Counted;
    SubmessageCounted(f.ltype, f.dataSize, v);
    if k.ltype.Submessage? {
      ShortIsLegible(k.ltype.fields, f.ltype.fields, v.message);
    }
  }

  lemma NumberCounted(lt: LType, v: Value)
    requires !lt.Submessage?
    ensures Counted(lt, v)
  {
  }

  lemma SubmessageCounted(lt: LType, dataSize: nat, v: Value)
    requires lt.Submessage? && InRangeValue(lt, dataSize, v)
    requires EncValue(lt, dataSize, v).Some? && |EncValue(lt, dataSize, v).value| < B32
    ensures Counted(lt, v) && v.Msg? && InRangeMessage(lt.fields, v.message)
    ensures |v.message.slots| == |lt.fields|
    ensures EncMessage(lt.fields, v.message).Some? && |EncMessage(lt.fields, v.message).value| < B32
  {
    hide EncMessage, EncString, InRangeSlot;
    StringRoundTripSize(EncMessage(lt.fields, v.message).value);
  }
}
