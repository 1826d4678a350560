/** Whatever pb_decode (lib/nanopb-0.3.9.3/pb_decode.c) accepts, it leaves a struct the encoder takes. */
module PbSound {
  import opened Bytes
  import opened Powers
  import opened PbWire
  import opened PbTypes
  import opened PbCommon
  import opened PbDecode

  // Counts are within their arrays, strings within theirs, numbers within their types, at every level.

  // ----- Structs in the course of decoding -----

  /** A struct that is in range, and stays so when more is decoded into it: what is absent but may be
      merged into is in range as well. */
  ghost predicate SoundMessage(fields: seq<Field>, m: Message)
    decreases fields
  {
    && |m.slots| == |fields|
    && (forall i :: 0 <= i < |fields| ==> SoundSlot(fields[i], m.slots[i], m.which))
    && SoundWhich(fields, m.which)
  }

  ghost predicate SoundWhich(fields: seq<Field>, which: map<nat, nat>) {
    forall i :: 0 <= i < |fields| && fields[i].htype.OneOf? ==> WhichInRange(fields, which, fields[i].htype.group)
  }

  ghost predicate SoundSlot(f: Field, s: Slot, which: map<nat, nat>)
    decreases f, 1
  {
    if f.htype.Repeated? then
      && s.Many? && s.count <= |s.items| == f.arraySize
      && (forall k :: 0 <= k < s.count ==> SoundValue(f.ltype, f.dataSize, s.items[k]))
      && (forall k :: 0 <= k < |s.items| ==> ShapedValue(f.ltype, f.dataSize, s.items[k]))
    else
      && s.Single? && ShapedValue(f.ltype, f.dataSize, s.value)
      && (!f.htype.OneOf? || Present(f, s, which) ==> SoundValue(f.ltype, f.dataSize, s.value))
  }

  ghost predicate SoundValue(lt: LType, dataSize: nat, v: Value)
    decreases lt
  {
    if lt.Submessage? then v.Msg? && SoundMessage(lt.fields, v.message)
    else InRangeValue(lt, dataSize, v) && ShapedValue(lt, dataSize, v)
  }

  lemma {:induction false} SoundInRange(fields: seq<Field>, m: Message)
    requires SoundMessage(fields, m)
    ensures InRangeMessage(fields, m) && ShapedMessage(fields, m)
    decreases fields
  {
    hide WhichInRange, ShapedSlot, InRangeSlot, SoundSlot;
    forall i | 0 <= i < |fields|
      ensures InRangeSlot(fields[i], m.slots[i], m.which) && ShapedSlot(fields[i], m.slots[i])
    {
      SoundSlotInRange(fields[i], m.slots[i], m.which);
    }
    forall i | 0 <= i < |fields| && fields[i].htype.OneOf? ensures fields[i].htype.group in m.which {
      ChosenKnown(fields, m.which, fields[i].htype.group);
    }
  }

  lemma ChosenKnown(fields: seq<Field>, which: map<nat, nat>, g: nat)
    requires WhichInRange(fields, which, g)
    ensures g in which
  {
  }

  lemma {:induction false} SoundSlotInRange(f: Field, s: Slot, which: map<nat, nat>)
    requires SoundSlot(f, s, which)
    ensures InRangeSlot(f, s, which) && ShapedSlot(f, s)
    decreases f, 1
  {
    hide InRangeValue, ShapedValue, SoundValue;
    if f.htype.Repeated? {
      forall k | 0 <= k < s.count ensures InRangeValue(f.ltype, f.dataSize, s.items[k]) {
        SoundValueInRange(f.ltype, f.dataSize, s.items[k]);
      }
    } else if Present(f, s, which) {
      SoundValueInRange(f.ltype, f.dataSize, s.value);
    }
  }

  lemma {:induction false} SoundValueInRange(lt: LType, dataSize: nat, v: Value)
    requires SoundValue(lt, dataSize, v)
    ensures InRangeValue(lt, dataSize, v) && ShapedValue(lt, dataSize, v)
    decreases lt
  {
    hide FitsSigned, Pow2;
    if lt.Submessage? {
      SoundInRange(lt.fields, v.message);
    }
  }

  // ----- Defaults -----

  lemma ZeroSound(lt: LType, dataSize: nat)
    requires LegalSize(lt, dataSize) && !lt.Submessage?
    ensures SoundValue(lt, dataSize, ZeroValue(lt, dataSize))
  {
    hide Pow2;
  }

  lemma {:induction false} DefaultSlotSound(f: Field, s: Slot, which: map<nat, nat>)
    requires ValidField(f) && ShapedSlot(f, s)
    requires f.htype.OneOf? ==> f.htype.group in which && which[f.htype.group] == 0
    ensures SoundSlot(f, DefaultSlot(f, s), which)
    decreases f
  {
    hide ZeroValue, Defaults, ShapedMessage, ValidDescriptor, InRangeMessage;
    if !f.htype.Repeated? && !f.htype.OneOf? {
      if f.ltype.Submessage? {
        DefaultsSound(f.ltype.fields, s.value.message);
        SoundInRange(f.ltype.fields, Defaults(f.ltype.fields, s.value.message));
      } else if f.dflt.None? {
        ZeroSound(f.ltype, f.dataSize);
      }
    }
  }

  /** A struct set to its defaults is sound, whatever it held. */
  lemma {:induction false} DefaultsSound(fields: seq<Field>, m: Message)
    requires ValidDescriptor(fields) && ShapedMessage(fields, m)
    ensures SoundMessage(fields, Defaults(fields, m))
    decreases fields
  {
    hide DefaultSlot, ShapedSlot, DefaultSlots, ValidField, DistinctTags, SoundSlot;
    var d := Defaults(fields, m);
    forall i | 0 <= i < |fields| ensures SoundSlot(fields[i], d.slots[i], d.which) {
      DefaultSlotsAt(fields, m.slots, i);
      DefaultSlotSound(fields[i], m.slots[i], d.which);
    }
  }

  // ----- Values -----

  lemma {:induction false} FixedBound(x: seq<byte>)
    ensures FixedValue(x) < Pow2(8 * |x|)
    decreases |x|
  {
    if x != [] {
      FixedBound(x[1..]);
      Pow2Add(8, 8 * (|x| - 1));
      assert Pow2(8) == 256;
      hide Pow2, FixedValue;
      assert FixedValue(x[1..]) + 1 <= Pow2(8 * (|x| - 1));
    }
  }

  lemma NumSound(lt: LType, dataSize: nat, s: seq<byte>)
    requires lt.Packable() && DecNum(lt, dataSize, s).Some?
    ensures InRangeValue(lt, dataSize, Num(DecNum(lt, dataSize, s).value.0))
  {
    hide DecVarint64, FixedValue, FitsSigned, Pow2, UnZigZag, ToSigned;
    Pow2Large();
    if lt.Fixed32? {
      FixedBound(s[..4]);
    } else if lt.Fixed64? {
      FixedBound(s[..8]);
    }
  }

  lemma {:induction false} CStringZeroFree(b: seq<byte>, max: nat)
    ensures ZeroFree(CString(b, max))
    decreases |b|
  {
    if b != [] && max > 0 && b[0] != 0 {
      CStringZeroFree(b[1..], max - 1);
    }
  }

  lemma BlobSound(lt: LType, dataSize: nat, s: seq<byte>)
    requires lt.BytesArray? || lt.CharArray? || lt.FixedLengthBytes?
    requires DecBlob(lt, dataSize, s).Some?
    ensures SoundValue(lt, dataSize, Blob(DecBlob(lt, dataSize, s).value.0))
  {
    hide DecVarint32, CString, ZeroFree;
    var (size, n) := DecVarint32(s).value;
    if lt.CharArray? {
      CStringZeroFree(s[n..n + size], size);
    }
  }

  /** What may be decoded into. */
  ghost predicate SoundDest(lt: LType, dataSize: nat, repeated: bool, dest: Value) {
    ShapedValue(lt, dataSize, dest) && (lt.Submessage? && !repeated ==> SoundMessage(lt.fields, dest.message))
  }

  lemma {:induction false} ValueSound(lt: LType, dataSize: nat, repeated: bool, dest: Value, s: seq<byte>)
    requires lt.Submessage? ==> ValidDescriptor(lt.fields)
    requires SoundDest(lt, dataSize, repeated, dest) && DecValue(lt, dataSize, repeated, dest, s).Some?
    ensures SoundValue(lt, dataSize, DecValue(lt, dataSize, repeated, dest, s).value.0)
    decreases lt, 0
  {
    hide DecNum, DecBlob, DecNoInit, Defaults, ShapedMessage, ValidDescriptor, SoundMessage, Delimited, DelimitedEnd,
      InRangeValue;
    if lt.Submessage? {
      if repeated {
        DefaultsSound(lt.fields, dest.message);
      }
      NoInitSound(lt.fields, if repeated then Defaults(lt.fields, dest.message) else dest.message, Delimited(s));
    } else if lt.Packable() {
      NumSound(lt, dataSize, s);
    } else {
      BlobSound(lt, dataSize, s);
    }
  }

  // ----- Fields -----

  lemma {:induction false} PackedSound(f: Field, s: seq<byte>, count: nat, items: seq<Value>, which: map<nat, nat>)
    requires f.htype.Repeated? && f.ltype.Packable() && SoundSlot(f, Many(count, items), which)
    requires DecPacked(f, s, count, items).Some?
    ensures SoundSlot(f, DecPacked(f, s, count, items).value, which)
    decreases f, 1, |s|
  {
    hide DecValue, SoundValue, ShapedValue;
    if s != [] {
      SoundItem(f, count, items, s, which);
      var (v, n) := DecValue(f.ltype, f.dataSize, true, items[count], s).value;
      PackedSound(f, s[n..], count + 1, items[count := v], which);
    }
  }

  /** One more item in an array with room for it. */
  lemma SoundItem(f: Field, count: nat, items: seq<Value>, s: seq<byte>, which: map<nat, nat>)
    requires f.htype.Repeated? && SoundSlot(f, Many(count, items), which) && count < |items|
    requires f.ltype.Submessage? ==> ValidDescriptor(f.ltype.fields)
    requires DecValue(f.ltype, f.dataSize, true, items[count], s).Some?
    ensures
      var (v, n) := DecValue(f.ltype, f.dataSize, true, items[count], s).value;
      SoundSlot(f, Many(count + 1, items[count := v]), which)
    decreases f, 0
  {
    hide DecValue, ValidDescriptor, ShapedMessage, SoundMessage, InRangeValue;
    ValueSound(f.ltype, f.dataSize, true, items[count], s);
    var v := DecValue(f.ltype, f.dataSize, true, items[count], s).value.0;
    SoundValueInRange(f.ltype, f.dataSize, v);
    hide SoundValue, ShapedValue;
  }

  lemma {:induction false} SlotSound(f: Field, wire: nat, dest: Slot, s: seq<byte>, which: map<nat, nat>,
    which': map<nat, nat>)
    requires ValidField(f) && SoundSlot(f, dest, which) && DecSlot(f, wire, dest, s).Some?
    ensures SoundSlot(f, DecSlot(f, wire, dest, s).value.0, which')
    decreases f, 2
  {
    hide DecValue, ValidDescriptor, ShapedMessage, SoundMessage, InRangeValue, DecPacked, Delimited, DelimitedEnd,
      Defaults, ZeroMessage;
    if f.htype.Repeated? {
      assert SoundSlot(f, dest, which');
      if wire == WT_STRING && f.ltype.Packable() {
        PackedSound(f, Delimited(s), dest.count, dest.items, which');
      } else {
        SoundItem(f, dest.count, dest.items, s, which');
      }
    } else {
      var start :=
        if f.htype.OneOf? && f.ltype.Submessage? then Msg(Defaults(f.ltype.fields, ZeroMessage(f.ltype.fields)))
        else dest.value;
      if f.htype.OneOf? && f.ltype.Submessage? {
        ZeroShaped(f.ltype.fields);
        DefaultsSound(f.ltype.fields, ZeroMessage(f.ltype.fields));
        SoundInRange(f.ltype.fields, start.message);
      }
      ValueSound(f.ltype, f.dataSize, false, start, s);
      SoundValueInRange(f.ltype, f.dataSize, DecValue(f.ltype, f.dataSize, false, start, s).value.0);
    }
  }

  lemma WhichAfter(fields: seq<Field>, which: map<nat, nat>, i: nat)
    requires i < |fields| && fields[i].htype.OneOf? && SoundWhich(fields, which)
    ensures SoundWhich(fields, which[fields[i].htype.group := fields[i].tag])
  {
  }

  /** The other members of a oneof are absent once this one has been chosen. */
  lemma OtherSlot(fields: seq<Field>, i: nat, j: nat, s: Slot, which: map<nat, nat>)
    requires i < |fields| && j < |fields| && i != j && DistinctTags(fields) && fields[i].htype.OneOf?
    requires SoundSlot(fields[j], s, which)
    ensures SoundSlot(fields[j], s, which[fields[i].htype.group := fields[i].tag])
  {
    hide SoundValue, ShapedValue;
    assert fields[i].tag != fields[j].tag;
  }

  lemma {:induction false} FieldSound(fields: seq<Field>, i: nat, wire: nat, st: Progress, s: seq<byte>)
    requires i < |fields| && ValidDescriptor(fields) && SoundMessage(fields, st.message)
    requires DecField(fields, i, wire, st, s).Some?
    ensures SoundMessage(fields, DecField(fields, i, wire, st, s).value.0.message)
    decreases fields, 1
  {
    hide DecSlot, SoundSlot, ValidField, SoundWhich, DistinctTags;
    var f, m := fields[i], st.message;
    var r := DecField(fields, i, wire, st, s).value.0.message;
    SlotSound(f, wire, m.slots[i], s, m.which, r.which);
    forall j | 0 <= j < |fields| ensures SoundSlot(fields[j], r.slots[j], r.which) {
      if j != i && f.htype.OneOf? {
        OtherSlot(fields, i, j, m.slots[j], m.which);
      }
    }
    if f.htype.OneOf? {
      WhichAfter(fields, m.which, i);
    }
  }

  // ----- Messages -----

  lemma {:induction false} TurnSound(fields: seq<Field>, st: Progress, s: seq<byte>)
    requires ValidDescriptor(fields) && SoundMessage(fields, st.message) && Turn(fields, st, s).Go?
    ensures SoundMessage(fields, Turn(fields, st, s).st.message)
    decreases fields, 2
  {
    hide DecTag, Find, DecField, SkipField, SoundMessage, ValidDescriptor;
    var t := DecTag(s);
    if Find(fields, t.tag).Some? {
      FieldSound(fields, Find(fields, t.tag).value, t.wire, st, s[t.size..]);
    }
  }

  lemma {:induction false} LoopSound(fields: seq<Field>, st: Progress, s: seq<byte>)
    requires ValidDescriptor(fields) && SoundMessage(fields, st.message) && DecLoop(fields, st, s).Some?
    ensures SoundMessage(fields, DecLoop(fields, st, s).value.message)
    decreases fields, 3, |s|
  {
    hide Turn, SoundMessage, ValidDescriptor;
    if s != [] && Turn(fields, st, s).Go? {
      TurnSound(fields, st, s);
      var Go(st', n) := Turn(fields, st, s);
      LoopSound(fields, st', s[n..]);
    }
  }

  lemma {:induction false} NoInitSound(fields: seq<Field>, m: Message, s: seq<byte>)
    requires ValidDescriptor(fields) && SoundMessage(fields, m) && DecNoInit(fields, m, s).Some?
    ensures SoundMessage(fields, DecNoInit(fields, m, s).value)
    decreases fields, 4
  {
    hide DecLoop, SoundMessage, ValidDescriptor, RequiredSeen;
    LoopSound(fields, Progress(m, {}), s);
  }

  /** Whatever the input, what pb_decode accepts leaves an in-range struct: no array holds more than it
      has room for, and every value fits its type. */
  lemma AnyDecodeInRange(fields: seq<Field>, m: Message, s: seq<byte>)
    requires ValidDescriptor(fields) && ShapedMessage(fields, m) && DecMessage(fields, m, s).Some?
    ensures InRangeMessage(fields, DecMessage(fields, m, s).value)
    ensures ShapedMessage(fields, DecMessage(fields, m, s).value)
  {
    hide DecNoInit, SoundMessage, ValidDescriptor, ShapedMessage, InRangeMessage, Defaults;
    DefaultsSound(fields, m);
    NoInitSound(fields, Defaults(fields, m), s);
    SoundInRange(fields, DecMessage(fields, m, s).value);
  }

  // ----- Failed decodes -----

  lemma {:induction false} LastTurnSound(fields: seq<Field>, st: Progress, s: seq<byte>)
    requires ValidDescriptor(fields) && SoundMessage(fields, st.message)
    ensures SoundMessage(fields, LastTurn(fields, st, s).0.message)
    decreases |s|
  {
    hide Turn, SoundMessage, ValidDescriptor;
    if s != [] && Turn(fields, st, s).Go? {
      TurnSound(fields, st, s);
      LastTurnSound(fields, Turn(fields, st, s).st, s[Turn(fields, st, s).n..]);
    }
  }

  /** When pb_decode fails, every field but the one it was at is in range, and if that is an array its
      count is at most one above its size. */
  lemma FailedDecode(fields: seq<Field>, m: Message, s: seq<byte>, r: Message) returns (at: Option<nat>)
    requires ValidDescriptor(fields) && ShapedMessage(fields, m) && Left(fields, Defaults(fields, m), s, r)
    ensures |r.slots| == |fields|
    ensures at.Some? ==> at.value < |fields| && ShapedSlot(fields[at.value], r.slots[at.value])
    ensures forall j :: 0 <= j < |fields| && at != Some(j) ==> InRangeSlot(fields[j], r.slots[j], r.which)
    ensures at.Some? && fields[at.value].htype.Repeated? ==>
      r.slots[at.value].count <= fields[at.value].arraySize + 1
  {
    hide ShapedMessage, Defaults, LastTurn, DecTag, Find, SoundSlot, InRangeSlot, ShapedSlot, ValidField, DistinctTags,
      SoundWhich;
    var d := Defaults(fields, m);
    var (st, rest) := LastTurn(fields, Progress(d, {}), s);
    DefaultsSound(fields, m);
    LastTurnSound(fields, Progress(d, {}), s);
    var t := DecTag(rest);
    at := if t.Tag? then Find(fields, t.tag) else None;
    forall j | 0 <= j < |fields| && at != Some(j) ensures InRangeSlot(fields[j], r.slots[j], r.which) {
      if at.Some? && fields[at.value].htype.OneOf? {
        OtherSlot(fields, at.value, j, st.message.slots[j], st.message.which);
      }
      SoundSlotInRange(fields[j], r.slots[j], r.which);
    }
    if at.Some? {
      SoundCount(fields[at.value], st.message.slots[at.value], st.message.which);
    }
  }

  lemma SoundCount(f: Field, s: Slot, which: map<nat, nat>)
    requires SoundSlot(f, s, which)
    ensures f.htype.Repeated? ==> s.Many? && s.count <= |s.items| == f.arraySize
  {
    hide SoundValue, ShapedValue;
  }

  /** A table with an array for one number. */
  function OneNumber(): seq<Field> { [Field(1, Repeated, UVarint, 0, 0, 1, 1, None)] }

  /** The count can be above: an array for one number, sent two. */
  lemma CountBeyondArray(m: Message, r: Message)
    requires ShapedMessage(OneNumber(), m) && Left(OneNumber(), Defaults(OneNumber(), m), [8, 1, 8, 1], r)
    ensures |r.slots| == 1 && r.slots[0].Many? && r.slots[0].count == 2 > |r.slots[0].items|
  {
    hide Defaults, LastTurn, LeftByTurn, ShapedMessage;
    var d := Defaults(OneNumber(), m);
    NoNumber(m);
    TwoItems(OneNumber(), d);
    SecondRefused(Message([Many(1, [Num(1)])], d.which), r);
  }

  lemma NoNumber(m: Message)
    requires ShapedMessage(OneNumber(), m)
    ensures
      var d := Defaults(OneNumber(), m);
      |d.slots| == 1 && d.slots[0].Many? && d.slots[0].count == 0 && |d.slots[0].items| == 1
  {
    DefaultSlotsAt(OneNumber(), m.slots, 0);
    assert ShapedSlot(OneNumber()[0], m.slots[0]);
  }

  lemma SecondRefused(m: Message, r: Message)
    requires m.slots == [Many(1, [Num(1)])] && LeftByTurn(OneNumber(), m, [8, 1], r)
    ensures |r.slots| == 1 && r.slots[0] == Many(2, [Num(1)])
  {
    hide DecTag, Find;
    OneItem(OneNumber(), Progress(m, {}), [8, 1]);
  }

  /** The first item is taken in, the second one fails. */
  lemma TwoItems(fields: seq<Field>, d: Message)
    requires fields == OneNumber()
    requires |d.slots| == 1 && d.slots[0].Many? && d.slots[0].count == 0 && |d.slots[0].items| == 1
    ensures LastTurn(fields, Progress(d, {}), [8, 1, 8, 1]) ==
      (Progress(Message([Many(1, [Num(1)])], d.which), {}), [8, 1])
  {
    hide Turn, DecTag, Find;
    var st := Progress(Message([Many(1, [Num(1)])], d.which), {});
    OneItem(fields, Progress(d, {}), [8, 1, 8, 1]);
    OneItem(fields, st, [8, 1]);
    assert [8 as byte, 1, 8, 1][2..] == [8, 1];
  }

  /** One item for that array. */
  lemma OneItem(fields: seq<Field>, st: Progress, s: seq<byte>)
    requires fields == OneNumber() && |s| >= 2 && s[..2] == [8, 1]
    requires |st.message.slots| == 1 && st.message.slots[0].Many? && |st.message.slots[0].items| == 1
    ensures DecTag(s) == Tag(1, WT_VARINT, 1) && Find(fields, 1) == Some(0)
    ensures Turn(fields, st, s) ==
      if st.message.slots[0].count == 0 then Go(Progress(Message([Many(1, [Num(1)])], st.message.which), st.seen), 2)
      else Fail
  {
    assert s[0] == 8 && s[1] == 1 && s[1..][0] == 1;
    assert DecVarint32(s) == Some((8, 1));
    assert DecVarint64(s[1..]) == Some((1, 1)) by {
      assert VarintSpan(s[1..]) == Some(1) && s[1..][..1] == [1];
      assert VarintValue([1]) == 1;
    }
    assert Pow2(8) == 256;
    hide Pow2, DecVarint64, DecVarint32;
    assert DecNum(UVarint, 1, s[1..]) == Some((1, 1));
    var items := st.message.slots[0].items;
    assert items[0 := Num(1)] == [Num(1)];
    assert st.message.slots[0 := Many(1, [Num(1)])] == [Many(1, [Num(1)])];
    var slot, one := st.message.slots[0], Many(1, [Num(1)]);
    assert DecValue(UVarint, 1, true, items[0], s[1..]) == Some((Num(1), 1));
    hide DecValue, DecTag;
    assert DecSlot(fields[0], WT_VARINT, slot, s[1..]) == if slot.count == 0 then Some((one, 1)) else None;
    hide DecSlot, Find;
    assert Stored(fields[0], 0, st, one) == Progress(Message([one], st.message.which), st.seen);
  }
}
