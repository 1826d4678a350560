/** pb_decode sets the struct to its defaults first (lib/nanopb-0.3.9.3/pb_decode.c), so that what the
    struct held before, uninitialised or not, makes no difference. */
module PbInit {
  import opened Bytes
  import opened PbWire
  import opened PbTypes
  import PbCommon
  import opened PbDecode

  // ----- Structs that differ only where nothing is there -----

  ghost predicate AlikeMessage(fields: seq<Field>, a: Message, b: Message)
    decreases fields
  {
    && |a.slots| == |b.slots| == |fields|
    && (forall i :: 0 <= i < |fields| ==> AlikeSlot(fields[i], a.slots[i], b.slots[i], a.which))
    && AlikeWhich(fields, a.which, b.which)
  }

  ghost predicate AlikeWhich(fields: seq<Field>, which: map<nat, nat>, which': map<nat, nat>) {
    forall i :: 0 <= i < |fields| && fields[i].htype.OneOf? ==>
      var g := fields[i].htype.group;
      g in which && g in which' && which[g] == which'[g]
  }

  ghost predicate AlikeSlot(f: Field, s: Slot, t: Slot, which: map<nat, nat>)
    decreases f, 1
  {
    && ShapedSlot(f, s) && ShapedSlot(f, t)
    && if f.htype.Repeated? then
         && s.count == t.count <= f.arraySize
         && forall k :: 0 <= k < s.count ==> AlikeValue(f.ltype, s.items[k], t.items[k])
       else
         && (f.htype.Optional? ==> s.has == t.has)
         && (!f.htype.OneOf? || Present(f, s, which) ==> AlikeValue(f.ltype, s.value, t.value))
  }

  ghost predicate AlikeValue(lt: LType, v: Value, w: Value)
    decreases lt
  {
    if lt.Submessage? then v.Msg? && w.Msg? && AlikeMessage(lt.fields, v.message, w.message) else v == w
  }

  lemma {:induction false} AlikeSame(fields: seq<Field>, a: Message, b: Message)
    requires AlikeMessage(fields, a, b)
    ensures SameMessage(fields, a, b)
    decreases fields
  {
    hide AlikeSlot, SameSlot;
    forall i | 0 <= i < |fields| ensures SameSlot(fields[i], a.slots[i], b.slots[i], a.which) {
      AlikeSlotSame(fields[i], a.slots[i], b.slots[i], a.which);
    }
  }

  lemma {:induction false} AlikeSlotSame(f: Field, s: Slot, t: Slot, which: map<nat, nat>)
    requires AlikeSlot(f, s, t, which)
    ensures SameSlot(f, s, t, which)
    decreases f, 1
  {
    hide AlikeValue, SameValue, ShapedValue;
    if f.htype.Repeated? {
      forall k | 0 <= k < s.count ensures SameValue(f.ltype, s.items[k], t.items[k]) {
        AlikeValueSame(f.ltype, s.items[k], t.items[k]);
      }
    } else if Present(f, s, which) {
      AlikeValueSame(f.ltype, s.value, t.value);
    }
  }

  lemma {:induction false} AlikeValueSame(lt: LType, v: Value, w: Value)
    requires AlikeValue(lt, v, w)
    ensures SameValue(lt, v, w)
    decreases lt
  {
    if lt.Submessage? {
      AlikeSame(lt.fields, v.message, w.message);
    }
  }

  lemma AlikeShaped(fields: seq<Field>, a: Message, b: Message)
    requires AlikeMessage(fields, a, b)
    ensures ShapedMessage(fields, a) && ShapedMessage(fields, b)
  {
    hide AlikeValue, ShapedValue;
  }

  // ----- Defaults -----

  lemma {:induction false} DefaultSlotAlike(f: Field, s: Slot, t: Slot, which: map<nat, nat>)
    requires ValidField(f) && ShapedSlot(f, s) && ShapedSlot(f, t)
    requires f.htype.OneOf? ==> f.htype.group in which && which[f.htype.group] == 0
    ensures AlikeSlot(f, DefaultSlot(f, s), DefaultSlot(f, t), which)
    decreases f
  {
    hide ZeroValue, Defaults, ShapedMessage, ValidDescriptor, AlikeMessage, InRangeValue;
    if !f.htype.Repeated? && !f.htype.OneOf? {
      if f.ltype.Submessage? {
        DefaultsAlike(f.ltype.fields, s.value.message, t.value.message);
        var a, b := Defaults(f.ltype.fields, s.value.message), Defaults(f.ltype.fields, t.value.message);
        AlikeShaped(f.ltype.fields, a, b);
        assert DefaultSlot(f, s).value == Msg(a) && DefaultSlot(f, t).value == Msg(b);
        assert ShapedValue(f.ltype, f.dataSize, Msg(a)) && ShapedValue(f.ltype, f.dataSize, Msg(b));
        assert AlikeValue(f.ltype, Msg(a), Msg(b));
      } else {
        ZeroValueShaped(f.ltype, f.dataSize);
        assert ShapedSlot(f, DefaultSlot(f, s)) && ShapedSlot(f, DefaultSlot(f, t));
      }
    }
  }

  lemma {:induction false} DefaultsAlike(fields: seq<Field>, a: Message, b: Message)
    requires ValidDescriptor(fields) && ShapedMessage(fields, a) && ShapedMessage(fields, b)
    ensures AlikeMessage(fields, Defaults(fields, a), Defaults(fields, b))
    decreases fields
  {
    hide DefaultSlot, ShapedSlot, DefaultSlots, ValidField, DistinctTags, AlikeSlot;
    var d, e := Defaults(fields, a), Defaults(fields, b);
    forall i | 0 <= i < |fields| ensures AlikeSlot(fields[i], d.slots[i], e.slots[i], d.which) {
      DefaultSlotsAt(fields, a.slots, i);
      DefaultSlotsAt(fields, b.slots, i);
      DefaultSlotAlike(fields[i], a.slots[i], b.slots[i], d.which);
    }
  }

  // ----- The same input -----

  /** Both decodes fail, or both take the same bytes. */
  predicate Parallel<T>(r: Option<(T, nat)>, r': Option<(T, nat)>) {
    (r.Some? <==> r'.Some?) && (r.Some? ==> r.value.1 == r'.value.1)
  }

  ghost predicate AlikeDest(lt: LType, dataSize: nat, repeated: bool, v: Value, w: Value) {
    && ShapedValue(lt, dataSize, v) && ShapedValue(lt, dataSize, w)
    && (lt.Submessage? && !repeated ==> AlikeMessage(lt.fields, v.message, w.message))
  }

  lemma {:induction false} ValueAlike(lt: LType, dataSize: nat, repeated: bool, v: Value, w: Value, s: seq<byte>)
    requires lt.Submessage? ==> ValidDescriptor(lt.fields)
    requires AlikeDest(lt, dataSize, repeated, v, w)
    ensures Parallel(DecValue(lt, dataSize, repeated, v, s), DecValue(lt, dataSize, repeated, w, s))
    ensures DecValue(lt, dataSize, repeated, v, s).Some? ==>
      var v', w' := DecValue(lt, dataSize, repeated, v, s).value.0, DecValue(lt, dataSize, repeated, w, s).value.0;
      AlikeValue(lt, v', w') && ShapedValue(lt, dataSize, v') && ShapedValue(lt, dataSize, w')
    decreases lt, 0
  {
    hide DecNum, DecNoInit, Defaults, ShapedMessage, ValidDescriptor, AlikeMessage, Delimited, DelimitedEnd,
      DecVarint32, CString;
    if lt.Submessage? {
      if repeated {
        DefaultsAlike(lt.fields, v.message, w.message);
      }
      var a := if repeated then Defaults(lt.fields, v.message) else v.message;
      var b := if repeated then Defaults(lt.fields, w.message) else w.message;
      if DelimitedEnd(s).Some? {
        NoInitAlike(lt.fields, a, b, Delimited(s));
        if DecNoInit(lt.fields, a, Delimited(s)).Some? {
          var r, r' := DecNoInit(lt.fields, a, Delimited(s)).value, DecNoInit(lt.fields, b, Delimited(s)).value;
          AlikeShaped(lt.fields, r, r');
        }
      }
    }
  }

  lemma {:induction false} PackedAlike(f: Field, s: seq<byte>, count: nat, items: seq<Value>, items': seq<Value>,
    which: map<nat, nat>)
    requires f.htype.Repeated? && f.ltype.Packable() && AlikeSlot(f, Many(count, items), Many(count, items'), which)
    ensures DecPacked(f, s, count, items).Some? <==> DecPacked(f, s, count, items').Some?
    ensures DecPacked(f, s, count, items).Some? ==>
      AlikeSlot(f, DecPacked(f, s, count, items).value, DecPacked(f, s, count, items').value, which)
    decreases f, 1, |s|
  {
    hide DecValue, AlikeValue, ShapedValue;
    if s != [] && count < f.arraySize {
      ItemAlike(f, count, items, items', s, which);
      if DecValue(f.ltype, f.dataSize, true, items[count], s).Some? {
        var (v, n) := DecValue(f.ltype, f.dataSize, true, items[count], s).value;
        var (w, _) := DecValue(f.ltype, f.dataSize, true, items'[count], s).value;
        PackedAlike(f, s[n..], count + 1, items[count := v], items'[count := w], which);
      }
    }
  }

  lemma {:induction false} ItemAlike(f: Field, count: nat, items: seq<Value>, items': seq<Value>, s: seq<byte>,
    which: map<nat, nat>)
    requires f.htype.Repeated? && AlikeSlot(f, Many(count, items), Many(count, items'), which) && count < f.arraySize
    requires f.ltype.Submessage? ==> ValidDescriptor(f.ltype.fields)
    ensures
      var r := DecValue(f.ltype, f.dataSize, true, items[count], s);
      var r' := DecValue(f.ltype, f.dataSize, true, items'[count], s);
      Parallel(r, r') &&
      (r.Some? ==>
         AlikeSlot(f, Many(count + 1, items[count := r.value.0]), Many(count + 1, items'[count := r'.value.0]), which))
    decreases f, 0
  {
    hide DecValue, AlikeValue, ShapedMessage, ValidDescriptor;
    ValueAlike(f.ltype, f.dataSize, true, items[count], items'[count], s);
    hide ShapedValue;
  }

  lemma {:induction false} SlotAlike(f: Field, wire: nat, d: Slot, e: Slot, s: seq<byte>, which: map<nat, nat>,
    which': map<nat, nat>)
    requires ValidField(f) && AlikeSlot(f, d, e, which)
    ensures Parallel(DecSlot(f, wire, d, s), DecSlot(f, wire, e, s))
    ensures DecSlot(f, wire, d, s).Some? ==>
      AlikeSlot(f, DecSlot(f, wire, d, s).value.0, DecSlot(f, wire, e, s).value.0, which')
    decreases f, 2
  {
    hide DecValue, ValidDescriptor, ShapedMessage, AlikeMessage, InRangeValue, DecPacked, Delimited, DelimitedEnd,
      Defaults, ZeroMessage;
    if f.htype.Repeated? {
      assert AlikeSlot(f, d, e, which');
      if wire == WT_STRING && f.ltype.Packable() {
        if DelimitedEnd(s).Some? {
          PackedAlike(f, Delimited(s), d.count, d.items, e.items, which');
        }
      } else if d.count < f.arraySize {
        ItemAlike(f, d.count, d.items, e.items, s, which');
      }
    } else {
      var fresh' := f.htype.OneOf? && f.ltype.Submessage?;
      var v := if fresh' then Msg(Defaults(f.ltype.fields, ZeroMessage(f.ltype.fields))) else d.value;
      var w := if fresh' then Msg(Defaults(f.ltype.fields, ZeroMessage(f.ltype.fields))) else e.value;
      if fresh' {
        ZeroShaped(f.ltype.fields);
        DefaultsAlike(f.ltype.fields, ZeroMessage(f.ltype.fields), ZeroMessage(f.ltype.fields));
        AlikeShaped(f.ltype.fields, v.message, v.message);
      }
      ValueAlike(f.ltype, f.dataSize, false, v, w, s);
    }
  }

  /** The other members of a oneof are absent once this one has been chosen. */
  lemma OtherAlike(fields: seq<Field>, i: nat, j: nat, s: Slot, t: Slot, which: map<nat, nat>)
    requires i < |fields| && j < |fields| && i != j && DistinctTags(fields) && fields[i].htype.OneOf?
    requires AlikeSlot(fields[j], s, t, which)
    ensures AlikeSlot(fields[j], s, t, which[fields[i].htype.group := fields[i].tag])
  {
    hide AlikeValue, ShapedValue;
    assert fields[i].tag != fields[j].tag;
  }

  ghost predicate AlikeProgress(fields: seq<Field>, st: Progress, st': Progress) {
    AlikeMessage(fields, st.message, st'.message) && st.seen == st'.seen
  }

  lemma {:induction false} FieldAlike(fields: seq<Field>, i: nat, wire: nat, st: Progress, st': Progress, s: seq<byte>)
    requires i < |fields| && ValidDescriptor(fields) && AlikeProgress(fields, st, st')
    ensures Parallel(DecField(fields, i, wire, st, s), DecField(fields, i, wire, st', s))
    ensures DecField(fields, i, wire, st, s).Some? ==>
      AlikeProgress(fields, DecField(fields, i, wire, st, s).value.0, DecField(fields, i, wire, st', s).value.0)
    decreases fields, 1
  {
    hide DecSlot, AlikeSlot, ValidField, DistinctTags;
    var f, a, b := fields[i], st.message, st'.message;
    var which := if f.htype.OneOf? then a.which[f.htype.group := f.tag] else a.which;
    SlotAlike(f, wire, a.slots[i], b.slots[i], s, a.which, which);
    if DecSlot(f, wire, a.slots[i], s).Some? {
      var c := a.slots[i := DecSlot(f, wire, a.slots[i], s).value.0];
      var d := b.slots[i := DecSlot(f, wire, b.slots[i], s).value.0];
      forall j | 0 <= j < |fields| ensures AlikeSlot(fields[j], c[j], d[j], which) {
        if j != i && f.htype.OneOf? {
          OtherAlike(fields, i, j, a.slots[j], b.slots[j], a.which);
        }
      }
    }
  }

  lemma {:induction false} TurnAlike(fields: seq<Field>, st: Progress, st': Progress, s: seq<byte>)
    requires ValidDescriptor(fields) && AlikeProgress(fields, st, st')
    ensures
      var r, r' := Turn(fields, st, s), Turn(fields, st', s);
      && (r.Fail? <==> r'.Fail?) && (r.Stop? <==> r'.Stop?)
      && (r.Go? ==> r.n == r'.n && AlikeProgress(fields, r.st, r'.st))
    decreases fields, 2
  {
    hide DecTag, PbCommon.Find, DecField, SkipField, AlikeProgress, ValidDescriptor;
    var t := DecTag(s);
    if t.Tag? && PbCommon.Find(fields, t.tag).Some? {
      FieldAlike(fields, PbCommon.Find(fields, t.tag).value, t.wire, st, st', s[t.size..]);
    }
  }

  lemma {:induction false} LoopAlike(fields: seq<Field>, st: Progress, st': Progress, s: seq<byte>)
    requires ValidDescriptor(fields) && AlikeProgress(fields, st, st')
    ensures DecLoop(fields, st, s).Some? <==> DecLoop(fields, st', s).Some?
    ensures DecLoop(fields, st, s).Some? ==>
      AlikeProgress(fields, DecLoop(fields, st, s).value, DecLoop(fields, st', s).value)
    decreases fields, 3, |s|
  {
    hide Turn, AlikeProgress, ValidDescriptor;
    if s != [] {
      TurnAlike(fields, st, st', s);
      var r, r' := Turn(fields, st, s), Turn(fields, st', s);
      if r.Go? {
        LoopAlike(fields, r.st, r'.st, s[r.n..]);
      }
    }
  }

  lemma {:induction false} NoInitAlike(fields: seq<Field>, a: Message, b: Message, s: seq<byte>)
    requires ValidDescriptor(fields) && AlikeMessage(fields, a, b)
    ensures DecNoInit(fields, a, s).Some? <==> DecNoInit(fields, b, s).Some?
    ensures DecNoInit(fields, a, s).Some? ==>
      AlikeMessage(fields, DecNoInit(fields, a, s).value, DecNoInit(fields, b, s).value)
    decreases fields, 4
  {
    hide DecLoop, AlikeMessage, ValidDescriptor, RequiredSeen;
    LoopAlike(fields, Progress(a, {}), Progress(b, {}), s);
  }

  /** On every input, pb_decode into two structs of any contents succeeds for both or for neither, and
      leaves the same message in both, up to the contents of absent fields. */
  lemma DestinationIrrelevant(fields: seq<Field>, a: Message, b: Message, s: seq<byte>)
    requires ValidDescriptor(fields) && ShapedMessage(fields, a) && ShapedMessage(fields, b)
    ensures DecMessage(fields, a, s).Some? <==> DecMessage(fields, b, s).Some?
    ensures DecMessage(fields, a, s).Some? ==>
      SameMessage(fields, DecMessage(fields, a, s).value, DecMessage(fields, b, s).value)
  {
    hide DecNoInit, AlikeMessage, SameMessage, ValidDescriptor, ShapedMessage, Defaults;
    DefaultsAlike(fields, a, b);
    NoInitAlike(fields, Defaults(fields, a), Defaults(fields, b), s);
    if DecMessage(fields, a, s).Some? {
      AlikeSame(fields, DecMessage(fields, a, s).value, DecMessage(fields, b, s).value);
    }
  }
}
