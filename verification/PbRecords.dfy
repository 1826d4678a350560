/** What each record of an input does to the struct nanopb decodes into. */
module PbRecords {
  import opened Bytes
  import opened PbWire
  import opened PbTypes
  import opened PbCommon
  import opened PbEncode
  import opened PbDecode
  import opened PbUnknown
  import PbRoundTrip

  // ----- One record -----

  /** A record of a declared field: only its slot changes, its oneof's number becomes its tag, and a required
      field counts as seen. It fails exactly if its value does. */
  lemma RecordRead(fields: seq<Field>, i: nat, wire: nat, st: Progress, s: seq<byte>)
    requires i < |fields| == |st.message.slots| && DistinctTags(fields) && 1 <= fields[i].tag <= 65535 && wire < 8
    ensures
      var f, x, r := fields[i], EncVarint(8 * fields[i].tag + wire), DecSlot(fields[i], wire, st.message.slots[i], s);
      var turn := Turn(fields, st, x + s);
      && (turn.Fail? <==> r.None?)
      && (r.Some? ==>
            && turn.Go? && turn.n == |x| + r.value.1
            && turn.st.message.slots == st.message.slots[i := r.value.0]
            && (if f.htype.OneOf? then
                  && turn.st.message.which.Keys == st.message.which.Keys + {f.htype.group}
                  && forall g :: g in turn.st.message.which ==>
                       turn.st.message.which[g] == if g == f.htype.group then f.tag else st.message.which[g]
                else turn.st.message.which == st.message.which)
            && turn.st.seen == if f.htype.Required? then st.seen + {i} else st.seen)
  {
    hide EncVarint, DecSlot, DecTag, Find;
    var x := EncVarint(8 * fields[i].tag + wire);
    PbRoundTrip.TagRoundTrip(wire, fields[i].tag, s);
    FindAt(fields, i);
    assert (x + s)[|x|..] == s;
  }

  /** A record of an unknown field is moved over, or fails if it cannot be. */
  lemma UnknownRecord(fields: seq<Field>, tag: nat, wire: nat, st: Progress, s: seq<byte>)
    requires Find(fields, tag).None? && 1 <= tag <= 65535 && wire < 8
    ensures
      var x, turn := EncVarint(8 * tag + wire), Turn(fields, st, EncVarint(8 * tag + wire) + s);
      if SkipField(s, wire).Some? then turn == Go(st, |x| + SkipField(s, wire).value) else turn == Fail
  {
    hide EncVarint, SkipField, DecTag, Find;
    var x := EncVarint(8 * tag + wire);
    PbRoundTrip.TagRoundTrip(wire, tag, s);
    assert (x + s)[|x|..] == s;
  }

  /** A field numbered zero whose wire type is not zero is moved over as well, but fails on an empty table. */
  lemma FieldZero(fields: seq<Field>, wire: nat, st: Progress, s: seq<byte>)
    requires Find(fields, 0).None? && 1 <= wire < 8
    ensures
      var turn := Turn(fields, st, [wire as byte] + s);
      if fields != [] && SkipField(s, wire).Some? then turn == Go(st, 1 + SkipField(s, wire).value) else turn == Fail
  {
    hide SkipField, Find;
    var t := [wire as byte] + s;
    assert DecVarint32(t) == Some((wire, 1));
    assert t[1..] == s;
  }

  /** A zero where a tag would be ends the message, whatever follows. */
  lemma ZeroEnds(fields: seq<Field>, st: Progress, s: seq<byte>)
    ensures DecLoop(fields, st, [0] + s) == Some(st)
  {
    assert DecVarint32([0] + s) == Some((0, 1));
  }

  /** Where a turn fails the message fails: a tag that is cut off, or a record that cannot be read. */
  lemma FailureFails(fields: seq<Field>, st: Progress, s: seq<byte>)
    requires s != [] && (DecVarint32(s).None? || Turn(fields, st, s).Fail?)
    ensures DecLoop(fields, st, s) == None
  {
    hide DecVarint32, DecField, SkipField, Find;
  }

  // ----- One input after the other -----

  /** The records of s end where s does. */
  ghost predicate Whole(fields: seq<Field>, st: Progress, s: seq<byte>) { Boundary(fields, st, s, |s|) }

  /** Decoding what is made of whole records and then something else is decoding one after the other. */
  lemma {:induction false} Chained(fields: seq<Field>, st: Progress, s: seq<byte>, t: seq<byte>)
    requires Whole(fields, st, s)
    ensures DecLoop(fields, st, s).Some?
    ensures DecLoop(fields, st, s + t) == DecLoop(fields, DecLoop(fields, st, s).value, t)
    decreases |s|
  {
    hide Turn;
    if s == [] {
      assert s + t == t;
    } else {
      var Go(st', n) := Turn(fields, st, s);
      TurnLocal(fields, st, s, s + t);
      assert (s + t)[n..] == s[n..] + t;
      Chained(fields, st', s[n..], t);
    }
  }

  // ----- Submessages that come in parts -----

  /** Which fields have been seen before makes no difference to the message. */
  lemma {:induction false} SeenApart(fields: seq<Field>, m: Message, seen: set<nat>, s: seq<byte>)
    ensures
      var a, b := DecLoop(fields, Progress(m, seen), s), DecLoop(fields, Progress(m, {}), s);
      && (a.Some? <==> b.Some?)
      && (a.Some? ==> a.value.message == b.value.message && a.value.seen == seen + b.value.seen)
    decreases |s|
  {
    hide Turn;
    if s != [] {
      TurnSeenApart(fields, m, seen, s);
      var turn := Turn(fields, Progress(m, {}), s);
      if turn.Go? {
        SeenApart(fields, turn.st.message, turn.st.seen, s[turn.n..]);
        SeenApart(fields, turn.st.message, seen + turn.st.seen, s[turn.n..]);
        if DecLoop(fields, Progress(m, {}), s).Some? {
          SetAssoc(seen, turn.st.seen, DecLoop(fields, Progress(turn.st.message, {}), s[turn.n..]).value.seen);
        }
      }
    }
  }

  lemma TurnSeenApart(fields: seq<Field>, m: Message, seen: set<nat>, s: seq<byte>)
    ensures
      var a, b := Turn(fields, Progress(m, seen), s), Turn(fields, Progress(m, {}), s);
      && (a.Go? <==> b.Go?) && (a.Stop? <==> b.Stop?)
      && (a.Go? ==> a.n == b.n && a.st.message == b.st.message && a.st.seen == seen + b.st.seen)
  {
    hide DecTag, Find, DecSlot, SkipField;
  }

  /** Two inputs one after the other are read like each into what the other left. */
  lemma NoInitChained(fields: seq<Field>, m: Message, s: seq<byte>, t: seq<byte>)
    requires Whole(fields, Progress(m, {}), s) && DecNoInit(fields, m, s).Some?
    requires DecNoInit(fields, DecNoInit(fields, m, s).value, t).Some?
    ensures DecNoInit(fields, m, s + t) == DecNoInit(fields, DecNoInit(fields, m, s).value, t)
  {
    hide DecLoop, Whole, RequiredBefore;
    var st := DecLoop(fields, Progress(m, {}), s).value;
    Chained(fields, Progress(m, {}), s, t);
    SeenApart(fields, st.message, st.seen, t);
  }

  /** The field is a struct, or an array of structs with room for one more. */
  predicate HoldsMessage(f: Field, s: Slot) {
    if f.htype.Repeated? then s.Many? && s.count < |s.items| == f.arraySize && s.items[s.count].Msg?
    else s.Single? && s.value.Msg?
  }

  /** What a submessage field makes of its bytes: it is merged into what an optional or required field holds; a
      member of a oneof starts from zeros, and an item of an array from what is there, both with their
      defaults. */
  lemma SubmessageRead(f: Field, wire: nat, dest: Slot, s: seq<byte>)
    requires f.ltype.Submessage? && HoldsMessage(f, dest)
    ensures
      var sub := f.ltype.fields;
      var r :=
        if DelimitedEnd(s).None? then None
        else if dest.Many? then DecMessage(sub, dest.items[dest.count].message, Delimited(s))
        else if f.htype.OneOf? then DecMessage(sub, ZeroMessage(sub), Delimited(s))
        else DecNoInit(sub, dest.value.message, Delimited(s));
      && (DecSlot(f, wire, dest, s).Some? <==> r.Some?)
      && (r.Some? ==>
            var (slot, n) := DecSlot(f, wire, dest, s).value;
            && n == DelimitedEnd(s).value
            && slot ==
               if dest.Many? then Many(dest.count + 1, dest.items[dest.count := Msg(r.value)])
               else Single(dest.has || f.htype.Optional?, Msg(r.value)))
  {
    hide DelimitedEnd, Delimited, DecNoInit, Defaults, ZeroMessage, DecValue;
    var sub := f.ltype.fields;
    if dest.Many? {
      MessageRead(sub, f.dataSize, true, dest.items[dest.count].message, s);
      assert DecSlot(f, wire, dest, s) == DecRepeated(f, wire, dest.count, dest.items, s);
    } else {
      var start := if f.htype.OneOf? then Defaults(sub, ZeroMessage(sub)) else dest.value.message;
      MessageRead(sub, f.dataSize, false, start, s);
      assert DecSlot(f, wire, dest, s) == DecSingle(f, dest.has, dest.value, s);
    }
  }

  lemma MessageRead(sub: seq<Field>, dataSize: nat, repeated: bool, m: Message, s: seq<byte>)
    ensures
      var r :=
        if DelimitedEnd(s).None? then None
        else DecNoInit(sub, if repeated then Defaults(sub, m) else m, Delimited(s));
      DecValue(Submessage(sub), dataSize, repeated, Msg(m), s) ==
        if r.None? then None else Some((Msg(r.value), DelimitedEnd(s).value))
  {
    hide DelimitedEnd, Delimited, DecNoInit, Defaults;
  }

  /** A record of wire type 2. */
  function Record(tag: nat, b: seq<byte>): seq<byte> { EncVarint(8 * tag + 2) + (EncVarint(|b|) + b) }

  lemma PartRead(fields: seq<Field>, i: nat, st: Progress, b: seq<byte>, rest: seq<byte>)
    requires i < |fields| == |st.message.slots| && DistinctTags(fields) && 1 <= fields[i].tag <= 65535
    requires fields[i].ltype.Submessage? && HoldsMessage(fields[i], st.message.slots[i])
    requires (fields[i].htype.Required? || fields[i].htype.Optional?) && |b| < 0x1_0000_0000
    requires DecNoInit(fields[i].ltype.fields, st.message.slots[i].value.message, b).Some?
    ensures
      var f, slot := fields[i], st.message.slots[i];
      var m := DecNoInit(f.ltype.fields, slot.value.message, b).value;
      DecLoop(fields, st, Record(f.tag, b) + rest) ==
        DecLoop(fields, Stored(f, i, st, Single(slot.has || f.htype.Optional?, Msg(m))), rest)
  {
    hide EncVarint, DecNoInit, DecLoop, DelimitedEnd, Delimited, DecSlot, Stored, EncString;
    var f := fields[i];
    var e := EncString(b);
    assert EncString(b) == EncVarint(|b|) + b by { StringIs(b); }
    PbRoundTrip.StringRoundTrip(b, rest);
    SubmessageRead(f, 2, st.message.slots[i], e + rest);
    PbRoundTrip.TaggedStep(fields, i, 2, st, e + rest);
    Assoc(EncVarint(8 * f.tag + 2), e, rest);
    assert (e + rest)[|e|..] == rest;
  }

  lemma StringIs(b: seq<byte>)
    ensures EncString(b) == EncVarint(|b|) + b
  {
  }

  /** A submessage may come in parts: two records of the field do the same as one whose bytes are both, if
      the first part is made of whole records and each part is complete. */
  lemma SubmessagesMerge(fields: seq<Field>, i: nat, st: Progress, p: seq<byte>, q: seq<byte>, rest: seq<byte>)
    requires i < |fields| == |st.message.slots| && DistinctTags(fields) && 1 <= fields[i].tag <= 65535
    requires fields[i].ltype.Submessage? && HoldsMessage(fields[i], st.message.slots[i])
    requires (fields[i].htype.Required? || fields[i].htype.Optional?) && |p + q| < 0x1_0000_0000
    requires Whole(fields[i].ltype.fields, Progress(st.message.slots[i].value.message, {}), p)
    requires DecNoInit(fields[i].ltype.fields, st.message.slots[i].value.message, p).Some?
    requires
      var sub := fields[i].ltype.fields;
      DecNoInit(sub, DecNoInit(sub, st.message.slots[i].value.message, p).value, q).Some?
    ensures
      var tag := fields[i].tag;
      DecLoop(fields, st, Record(tag, p) + (Record(tag, q) + rest)) == DecLoop(fields, st, Record(tag, p + q) + rest)
  {
    hide DecNoInit, DecLoop, Whole, Record;
    var f, slot := fields[i], st.message.slots[i];
    var m := slot.value.message;
    var a := DecNoInit(f.ltype.fields, m, p).value;
    var has := slot.has || f.htype.Optional?;
    var st1 := Stored(f, i, st, Single(has, Msg(a)));
    NoInitChained(f.ltype.fields, m, p, q);
    PartRead(fields, i, st, p, Record(f.tag, q) + rest);
    PartRead(fields, i, st1, q, rest);
    PartRead(fields, i, st, p + q, rest);
    var b := DecNoInit(f.ltype.fields, a, q).value;
    assert st1.message.slots[i := Single(has, Msg(b))] == st.message.slots[i := Single(has, Msg(b))];
    assert st.seen + {i} + {i} == st.seen + {i};
  }

  // ----- Single values and arrays -----

  /** What a number or a byte string field makes of the bytes at the front of s. */
  function Leaf(f: Field, s: seq<byte>): Option<(Value, nat)>
    requires !f.ltype.Submessage?
  {
    if f.ltype.Packable() then
      match DecNum(f.ltype, f.dataSize, s)
      case None => None
      case Some((v, n)) => Some((Num(v), n))
    else
      match DecBlob(f.ltype, f.dataSize, s)
      case None => None
      case Some((b, n)) => Some((Blob(b), n))
  }

  /** The last value counts: a record replaces what the field held, whatever its wire type says, and sets the
      flag of an optional field. */
  lemma SingleRead(f: Field, wire: nat, dest: Slot, s: seq<byte>)
    requires !f.ltype.Submessage? && !f.htype.Repeated? && dest.Single?
    ensures
      var r := Leaf(f, s);
      && (DecSlot(f, wire, dest, s).Some? <==> r.Some?)
      && (r.Some? ==>
            DecSlot(f, wire, dest, s) == Some((Single(dest.has || f.htype.Optional?, r.value.0), r.value.1)))
  {
    hide DecValue, Leaf;
    LeafRead(f, false, dest.value, s);
    assert DecSlot(f, wire, dest, s) == DecSingle(f, dest.has, dest.value, s);
  }

  lemma LeafRead(f: Field, repeated: bool, dest: Value, s: seq<byte>)
    requires !f.ltype.Submessage?
    ensures DecValue(f.ltype, f.dataSize, repeated, dest, s) == Leaf(f, s)
  {
    hide DecNum, DecBlob;
  }

  /** One more item behind those an array has, if there is room for it; so for an array of numbers whose items come
      one by one. */
  lemma ItemRead(f: Field, wire: nat, count: nat, items: seq<Value>, s: seq<byte>)
    requires !f.ltype.Submessage? && f.htype.Repeated? && |items| == f.arraySize
    requires !(wire == 2 && f.ltype.Packable())
    ensures
      var r := Leaf(f, s);
      && (DecSlot(f, wire, Many(count, items), s).Some? <==> count < f.arraySize && r.Some?)
      && (count < f.arraySize && r.Some? ==>
            DecSlot(f, wire, Many(count, items), s) ==
              Some((Many(count + 1, items[count := r.value.0]), r.value.1)))
  {
    hide DecValue, DecPacked, Leaf;
    if count < f.arraySize {
      LeafRead(f, true, items[count], s);
    }
    assert DecSlot(f, wire, Many(count, items), s) == DecRepeated(f, wire, count, items, s);
  }

  /** The numbers a packed array is made of, if it is made of whole numbers that fit their type. */
  function Numbers(lt: LType, dataSize: nat, s: seq<byte>): Option<seq<Value>>
    requires lt.Packable()
    decreases |s|
  {
    if s == [] then Some([])
    else
      match DecNum(lt, dataSize, s)
      case None => None
      case Some((v, n)) =>
        match Numbers(lt, dataSize, s[n..])
        case None => None
        case Some(vs) => Some([Num(v)] + vs)
  }

  /** A packed array is put behind the items there are, all of it or nothing. */
  lemma PackedRead(f: Field, count: nat, items: seq<Value>, s: seq<byte>)
    requires f.ltype.Packable() && f.htype.Repeated? && count <= |items| == f.arraySize
    ensures
      var vs := if DelimitedEnd(s).None? then None else Numbers(f.ltype, f.dataSize, Delimited(s));
      && (DecSlot(f, 2, Many(count, items), s).Some? <==> vs.Some? && count + |vs.value| <= f.arraySize)
      && (vs.Some? && count + |vs.value| <= f.arraySize ==>
            DecSlot(f, 2, Many(count, items), s) ==
              Some((Many(count + |vs.value|, PbRoundTrip.Overwritten(items, count, vs.value)), DelimitedEnd(s).value)))
  {
    hide DelimitedEnd, Delimited, Numbers, DecPacked, PbRoundTrip.Overwritten;
    if DelimitedEnd(s).Some? {
      NumbersRead(f, count, items, Delimited(s));
    }
  }

  lemma {:induction false} NumbersRead(f: Field, count: nat, items: seq<Value>, s: seq<byte>)
    requires f.ltype.Packable() && count <= |items| == f.arraySize
    ensures
      var vs := Numbers(f.ltype, f.dataSize, s);
      DecPacked(f, s, count, items) ==
        if vs.None? || count + |vs.value| > f.arraySize then None
        else Some(Many(count + |vs.value|, PbRoundTrip.Overwritten(items, count, vs.value)))
    decreases |s|
  {
    hide DecNum, PbRoundTrip.Overwritten;
    if s == [] {
      PbRoundTrip.OverwrittenFirst(items, count, []);
    } else if DecNum(f.ltype, f.dataSize, s).Some? && count < f.arraySize {
      var (v, n) := DecNum(f.ltype, f.dataSize, s).value;
      NumbersRead(f, count + 1, items[count := Num(v)], s[n..]);
      var rest := Numbers(f.ltype, f.dataSize, s[n..]);
      if rest.Some? && count + 1 + |rest.value| <= f.arraySize {
        PbRoundTrip.OverwrittenFirst(items, count, [Num(v)] + rest.value);
      }
    }
  }

  // ----- What a failing run leaves -----

  lemma {:induction false} LastTurnChained(fields: seq<Field>, st: Progress, s: seq<byte>, t: seq<byte>)
    requires Whole(fields, st, s)
    ensures DecLoop(fields, st, s).Some?
    ensures LastTurn(fields, st, s + t) == LastTurn(fields, DecLoop(fields, st, s).value, t)
    decreases |s|
  {
    hide Turn;
    if s == [] {
      assert s + t == t;
    } else {
      var Go(st', n) := Turn(fields, st, s);
      TurnLocal(fields, st, s, s + t);
      assert (s + t)[n..] == s[n..] + t;
      LastTurnChained(fields, st', s[n..], t);
    }
  }

  /** pb_decode_noinit on whole records and then something that ends it: a tag that is cut off, a record that fails,
      a zero, or nothing, with a required field missing. The records before are in the struct. Of a record that
      fails only its own field shows: the number of its oneof is set, and a flag. An array keeps the items it had;
      one more item is counted before it is read, even if the array is full, in 16 bits. */
  lemma FailureLeaves(fields: seq<Field>, m: Message, s: seq<byte>, t: seq<byte>, r: Message)
    requires Whole(fields, Progress(m, {}), s) && DecLoop(fields, Progress(m, {}), s).Some?
    requires t == [] || !Turn(fields, DecLoop(fields, Progress(m, {}), s).value, t).Go?
    requires Left(fields, m, s + t, r)
    ensures
      var was, tag := DecLoop(fields, Progress(m, {}), s).value.message, DecTag(t);
      if !tag.Tag? || Find(fields, tag.tag).None? then r == was
      else LeavesField(fields[Find(fields, tag.tag).value], Find(fields, tag.tag).value, tag.wire, was, r)
  {
    hide Turn, DecLoop, DecTag, Find, Whole, ShapedSlot;
    LastTurnChained(fields, Progress(m, {}), s, t);
    var tag := DecTag(t);
    if tag.Tag? && Find(fields, tag.tag).Some? {
      var i := Find(fields, tag.tag).value;
      SlotShape(fields[i], r.slots[i]);
    }
  }

  lemma SlotShape(f: Field, s: Slot)
    requires ShapedSlot(f, s)
    ensures if f.htype.Repeated? then s.Many? && |s.items| == f.arraySize else s.Single?
  {
    hide ShapedValue;
  }

  ghost predicate LeavesField(f: Field, i: nat, wire: nat, was: Message, r: Message) {
    && i < |was.slots| == |r.slots| && (forall j :: 0 <= j < |was.slots| && j != i ==> r.slots[j] == was.slots[j])
    && r.which == (if f.htype.OneOf? then was.which[f.htype.group := f.tag] else was.which)
    && var a, b := was.slots[i], r.slots[i];
       if !f.htype.Repeated? then a.Single? && b.Single? && b.has == (a.has || f.htype.Optional?)
       else
         && a.Many? && b.Many? && |b.items| == f.arraySize
         && (forall k :: 0 <= k < a.count && k < |a.items| && k < |b.items| ==> b.items[k] == a.items[k])
         && if wire == 2 && f.ltype.Packable() then a.count <= b.count && (b.count <= a.count || b.count <= f.arraySize)
            else if a.count >= f.arraySize then b.count == (a.count + 1) % 65536 && b.items == a.items
            else b.count == a.count + 1
  }

  // ----- What the input does not mention -----

  /** A field that does not occur keeps its slot. */
  lemma {:induction false} Untouched(fields: seq<Field>, st: Progress, s: seq<byte>, i: nat)
    requires i < |fields| == |st.message.slots| && DistinctTags(fields)
    requires DecLoop(fields, st, s).Some? && !Occurs(fields, st, s, fields[i].tag)
    ensures |DecLoop(fields, st, s).value.message.slots| == |fields|
    ensures DecLoop(fields, st, s).value.message.slots[i] == st.message.slots[i]
    decreases |s|
  {
    hide Turn, Occurs, DistinctTags;
    if s != [] && Turn(fields, st, s).Go? {
      var Go(st', n) := Turn(fields, st, s);
      OccursLater(fields, st, s, fields[i].tag);
      TurnHasTag(fields, st, s);
      TurnUntouched(fields, st, s, i);
      Untouched(fields, st', s[n..], i);
    }
  }

  lemma TurnUntouched(fields: seq<Field>, st: Progress, s: seq<byte>, i: nat)
    requires i < |fields| == |st.message.slots| && DistinctTags(fields) && Turn(fields, st, s).Go?
    requires DecTag(s).tag != fields[i].tag
    ensures |Turn(fields, st, s).st.message.slots| == |fields|
    ensures Turn(fields, st, s).st.message.slots[i] == st.message.slots[i]
  {
    hide DecTag, DecSlot, SkipField, Find;
  }

  /** A oneof keeps its number if none of its members occurs. */
  lemma {:induction false} WhichUntouched(fields: seq<Field>, st: Progress, s: seq<byte>, g: nat)
    requires g in st.message.which && DecLoop(fields, st, s).Some?
    requires forall i :: 0 <= i < |fields| && fields[i].htype == OneOf(g) ==> !Occurs(fields, st, s, fields[i].tag)
    ensures g in DecLoop(fields, st, s).value.message.which
    ensures DecLoop(fields, st, s).value.message.which[g] == st.message.which[g]
    decreases |s|
  {
    hide Turn, Occurs;
    if s != [] && Turn(fields, st, s).Go? {
      var Go(st', n) := Turn(fields, st, s);
      TurnHasTag(fields, st, s);
      forall i | 0 <= i < |fields| && fields[i].htype == OneOf(g)
        ensures !Occurs(fields, st', s[n..], fields[i].tag) && fields[i].tag != DecTag(s).tag
      {
        OccursLater(fields, st, s, fields[i].tag);
      }
      TurnWhich(fields, st, s, g);
      WhichUntouched(fields, st', s[n..], g);
    }
  }

  lemma TurnWhich(fields: seq<Field>, st: Progress, s: seq<byte>, g: nat)
    requires g in st.message.which && Turn(fields, st, s).Go?
    requires forall i :: 0 <= i < |fields| && fields[i].htype == OneOf(g) ==> fields[i].tag != DecTag(s).tag
    ensures g in Turn(fields, st, s).st.message.which
    ensures Turn(fields, st, s).st.message.which[g] == st.message.which[g]
  {
    hide DecTag, DecSlot, SkipField, Find;
  }

  /** A field of which nothing was received, and which held was before. */
  ghost predicate Unwritten(f: Field, was: Slot, s: Slot) {
    match f.htype
    case Repeated => s.Many? && s.count == 0
    case OneOf(_) => s == was
    case _ =>
      && s.Single? && (f.htype.Optional? ==> !s.has)
      && if f.ltype.Submessage? then
           was.Single? && was.value.Msg? && s.value == Msg(Defaults(f.ltype.fields, was.value.message))
         else PbRoundTrip.IsDefault(f, s.value)
  }

  lemma DefaultUnwritten(f: Field, s: Slot)
    requires ShapedSlot(f, s)
    ensures Unwritten(f, s, DefaultSlot(f, s))
  {
    hide Defaults;
  }

  /** After pb_decode, whatever the struct held: a field that does not occur has its default and no flag or items,
      and a oneof of which no member occurs has the number zero. A submessage that does not occur has its own
      defaults. */
  lemma UnwrittenDefaults(fields: seq<Field>, m: Message, s: seq<byte>, i: nat)
    requires ShapedMessage(fields, m) && DistinctTags(fields) && i < |fields| && DecMessage(fields, m, s).Some?
    ensures |DecMessage(fields, m, s).value.slots| == |fields|
    ensures
      var f, r, start := fields[i], DecMessage(fields, m, s).value, Progress(Defaults(fields, m), {});
      !Occurs(fields, start, s, f.tag) ==> Unwritten(f, m.slots[i], r.slots[i])
    ensures
      var f, r, start := fields[i], DecMessage(fields, m, s).value, Progress(Defaults(fields, m), {});
      f.htype.OneOf? &&
      (forall j :: 0 <= j < |fields| && fields[j].htype == f.htype ==> !Occurs(fields, start, s, fields[j].tag)) ==>
        f.htype.group in r.which && r.which[f.htype.group] == 0
  {
    hide DecLoop, Occurs, DistinctTags, RequiredBefore, ShapedSlot, DefaultSlot, Unwritten, DefaultSlots, ClearWhich;
    var f, start := fields[i], Progress(Defaults(fields, m), {});
    DefaultSlotsAt(fields, m.slots, i);
    DefaultUnwritten(f, m.slots[i]);
    LoopLength(fields, start, s);
    if !Occurs(fields, start, s, f.tag) {
      Untouched(fields, start, s, i);
    }
    if f.htype.OneOf? &&
      (forall j :: 0 <= j < |fields| && fields[j].htype == f.htype ==> !Occurs(fields, start, s, fields[j].tag)) {
      WhichUntouched(fields, start, s, f.htype.group);
    }
  }

  lemma {:induction false} LoopLength(fields: seq<Field>, st: Progress, s: seq<byte>)
    requires DecLoop(fields, st, s).Some?
    ensures |DecLoop(fields, st, s).value.message.slots| == |st.message.slots|
    decreases |s|
  {
    hide Turn;
    if s != [] && Turn(fields, st, s).Go? {
      TurnLength(fields, st, s);
      LoopLength(fields, Turn(fields, st, s).st, s[Turn(fields, st, s).n..]);
    }
  }

  lemma TurnLength(fields: seq<Field>, st: Progress, s: seq<byte>)
    requires Turn(fields, st, s).Go?
    ensures |Turn(fields, st, s).st.message.slots| == |st.message.slots|
  {
    hide DecTag, DecSlot, SkipField, Find;
  }
}
