/** lib/nanopb-0.3.9.3/pb_decode.c. First what decoding makes of a byte string, as functions of the
    descriptor, the destination and the input; then the code, which does it on a stream. */
module PbDecode {
  import opened Bytes
  import Powers
  import opened PbWire
  import opened PbTypes
  import PbCommon

  const PB_MAX_REQUIRED_FIELDS: nat := 64

  // ----- Defaults -----

  function ZeroValue(lt: LType, dataSize: nat): Value
    decreases lt, 0
  {
    match lt
    case Submessage(fields) => Msg(ZeroMessage(fields))
    case BytesArray => Blob([])
    case CharArray => Blob([])
    case FixedLengthBytes => Blob(Zeros(dataSize))
    case _ => Num(0)
  }

  function ZeroSlot(f: Field): Slot
    decreases f, 0
  {
    if f.htype.Repeated? then
      var zero := ZeroValue(f.ltype, f.dataSize);
      Many(0, seq(f.arraySize, _ => zero))
    else Single(false, ZeroValue(f.ltype, f.dataSize))
  }

  function ZeroSlots(fields: seq<Field>): (slots: seq<Slot>)
    ensures |slots| == |fields|
    decreases fields, 0
  {
    if fields == [] then [] else [ZeroSlot(fields[0])] + ZeroSlots(fields[1..])
  }

  /** The which_ numbers of all oneofs set to zero. */
  function ClearWhich(fields: seq<Field>, which: map<nat, nat>): (w: map<nat, nat>)
    ensures forall g :: g in which && which[g] == 0 ==> g in w && w[g] == 0
    ensures forall g :: g in which ==> g in w
    ensures forall i :: 0 <= i < |fields| && fields[i].htype.OneOf? ==>
      fields[i].htype.group in w && w[fields[i].htype.group] == 0
  {
    if fields == [] then which
    else ClearWhich(fields[1..], if fields[0].htype.OneOf? then which[fields[0].htype.group := 0] else which)
  }

  /** A struct filled with zeros. */
  function ZeroMessage(fields: seq<Field>): Message
    decreases fields, 1
  {
    Message(ZeroSlots(fields), ClearWhich(fields, map[]))
  }

  /** pb_field_set_to_default for the data of a required or optional field. */
  function DefaultValue(f: Field, v: Value): Value
    decreases f, 0
  {
    if f.ltype.Submessage? then
      if v.Msg? then Msg(Defaults(f.ltype.fields, v.message)) else v
    else if f.dflt.Some? then f.dflt.value
    else ZeroValue(f.ltype, f.dataSize)
  }

  function DefaultSlot(f: Field, s: Slot): Slot
    decreases f, 1
  {
    match s
    case Many(_, items) => Many(0, items)
    case Single(has, v) =>
      if f.htype.OneOf? then s
      else Single(if f.htype.Optional? then false else has, DefaultValue(f, v))
  }

  function DefaultSlots(fields: seq<Field>, slots: seq<Slot>): (r: seq<Slot>)
    ensures |r| == |slots|
    decreases fields, 0
  {
    if fields == [] || slots == [] then slots
    else [DefaultSlot(fields[0], slots[0])] + DefaultSlots(fields[1..], slots[1..])
  }

  /** pb_message_set_to_defaults */
  function Defaults(fields: seq<Field>, m: Message): Message
    decreases fields, 1
  {
    Message(DefaultSlots(fields, m.slots), ClearWhich(fields, m.which))
  }

  lemma {:induction false} DefaultSlotsAt(fields: seq<Field>, slots: seq<Slot>, i: nat)
    requires i < |fields| == |slots|
    ensures DefaultSlots(fields, slots)[i] == DefaultSlot(fields[i], slots[i])
    decreases i
  {
    hide DefaultSlot;
    if i > 0 {
      DefaultSlotsAt(fields[1..], slots[1..], i - 1);
    }
  }

  lemma {:induction false} ZeroValueShaped(lt: LType, dataSize: nat)
    ensures ShapedValue(lt, dataSize, ZeroValue(lt, dataSize))
    decreases lt, 0
  {
    if lt.Submessage? {
      ZeroShaped(lt.fields);
    }
  }

  lemma {:induction false} ZeroSlotShaped(f: Field)
    ensures ShapedSlot(f, ZeroSlot(f))
    decreases f, 0
  {
    hide ZeroValue, ShapedValue;
    ZeroValueShaped(f.ltype, f.dataSize);
  }

  lemma {:induction false} ZeroSlotsAt(fields: seq<Field>, i: nat)
    requires i < |fields|
    ensures ZeroSlots(fields)[i] == ZeroSlot(fields[i])
    decreases i
  {
    hide ZeroSlot;
    if i > 0 {
      ZeroSlotsAt(fields[1..], i - 1);
    }
  }

  lemma {:induction false} ZeroShaped(fields: seq<Field>)
    ensures ShapedMessage(fields, ZeroMessage(fields))
    decreases fields, 1
  {
    hide ZeroSlot, ShapedSlot, ZeroSlots, ClearWhich;
    forall i | 0 <= i < |fields|
      ensures ShapedSlot(fields[i], ZeroSlots(fields)[i])
    {
      ZeroSlotsAt(fields, i);
      ZeroSlotShaped(fields[i]);
    }
  }

  // ----- Tags, skipping and substreams -----

  datatype TagResult = BadTag | EndTag | Tag(tag: nat, wire: nat, size: nat)

  /** pb_decode_tag: a zero tag ends the message. */
  function DecTag(s: seq<byte>): (r: TagResult)
    ensures r.Tag? ==> 1 <= r.size <= |s|
  {
    match DecVarint32(s)
    case None => BadTag
    case Some((v, n)) => if v == 0 then EndTag else Tag(v / 8, v % 8, n)
  }

  /** pb_skip_field: how many bytes the value of a field of this wire type takes. */
  function SkipField(s: seq<byte>, wire: nat): (n: Option<nat>)
    ensures n.Some? ==> n.value <= |s|
  {
    if wire == WT_VARINT then VarintSpan(s)
    else if wire == WT_64BIT then (if |s| >= 8 then Some(8) else None)
    else if wire == WT_STRING then DelimitedEnd(s)
    else if wire == WT_32BIT then (if |s| >= 4 then Some(4) else None)
    else None
  }

  /** Where the length-delimited value at the front of s ends. */
  function DelimitedEnd(s: seq<byte>): (n: Option<nat>)
    ensures n.Some? ==> DecVarint32(s).Some? && DecVarint32(s).value.1 <= n.value <= |s|
  {
    match DecVarint32(s)
    case None => None
    case Some((size, n)) => if n + size <= |s| then Some(n + size) else None
  }

  /** pb_make_string_substream: the delimited bytes. */
  function Delimited(s: seq<byte>): seq<byte>
    requires DelimitedEnd(s).Some?
  {
    s[DecVarint32(s).value.1..DelimitedEnd(s).value]
  }

  // ----- Field decoders: the value and how many bytes it took -----

  /** The value of a varint cast to the type of the field, None if it does not fit. A signed number
      of at most 32 bits is first cast to 32 bits. */
  function Narrow(lt: LType, dataSize: nat, v: nat): Option<int> {
    if dataSize !in {1, 2, 4, 8} then None
    else if lt.UVarint? then (if v < Powers.Pow2(8 * dataSize) then Some(v) else None)
    else
      var wide := if lt.SVarint? then UnZigZag(v) else if dataSize == 8 then ToSigned(v, 64) else ToSigned(v, 32);
      if FitsSigned(wide, 8 * dataSize) then Some(wide) else None
  }

  function DecNum(lt: LType, dataSize: nat, s: seq<byte>): (r: Option<(int, nat)>)
    requires lt.Packable()
    ensures r.Some? ==> 1 <= r.value.1 <= |s|
  {
    if lt.Fixed32? then (if |s| >= 4 then Some((FixedValue(s[..4]), 4)) else None)
    else if lt.Fixed64? then (if |s| >= 8 then Some((FixedValue(s[..8]), 8)) else None)
    else
      match DecVarint64(s)
      case None => None
      case Some((v, n)) => if Narrow(lt, dataSize, v).Some? then Some((Narrow(lt, dataSize, v).value, n)) else None
  }

  /** The byte strings; a char array then holds the string up to its first zero. */
  function DecBlob(lt: LType, dataSize: nat, s: seq<byte>): (r: Option<(seq<byte>, nat)>)
    requires lt.BytesArray? || lt.CharArray? || lt.FixedLengthBytes?
    ensures r.Some? ==> 1 <= r.value.1 <= |s|
  {
    match DecVarint32(s)
    case None => None
    case Some((size, n)) =>
      if lt.FixedLengthBytes? && size == 0 then Some((Zeros(dataSize), n))
      else if lt.BytesArray? && (size > PB_SIZE_MAX || size + BYTES_OFFSET > dataSize) then None
      else if lt.CharArray? && size + 1 > dataSize then None
      else if lt.FixedLengthBytes? && (size > PB_SIZE_MAX || size != dataSize) then None
      else if n + size > |s| then None
      else Some((if lt.CharArray? then CString(s[n..n + size], size) else s[n..n + size], n + size))
  }

  /** The field decoders, into what dest holds. A submessage of a repeated field is
      set to its defaults first, any other is merged into what is there. */
  function DecValue(lt: LType, dataSize: nat, repeated: bool, dest: Value, s: seq<byte>): (r: Option<(Value, nat)>)
    ensures r.Some? ==> 1 <= r.value.1 <= |s|
    decreases lt, 0
  {
    if lt.Submessage? then
      if DelimitedEnd(s).None? || !dest.Msg? then None
      else
        var start := if repeated then Defaults(lt.fields, dest.message) else dest.message;
        match DecNoInit(lt.fields, start, Delimited(s))
        case None => None
        case Some(m) => Some((Msg(m), DelimitedEnd(s).value))
    else if lt.Packable() then
      match DecNum(lt, dataSize, s)
      case None => None
      case Some((v, n)) => Some((Num(v), n))
    else
      match DecBlob(lt, dataSize, s)
      case None => None
      case Some((b, n)) => Some((Blob(b), n))
  }

  /** The loop over a packed array: it must end with the delimited bytes. */
  function DecPacked(f: Field, s: seq<byte>, count: nat, items: seq<Value>): Option<Slot>
    decreases f, |s|
  {
    if s == [] then Some(Many(count, items))
    else if count >= f.arraySize || count >= |items| then None
    else
      match DecValue(f.ltype, f.dataSize, true, items[count], s)
      case None => None
      case Some((v, n)) => DecPacked(f, s[n..], count + 1, items[count := v])
  }

  /** decode_static_field for a repeated field: a packed array, or one more item. */
  function DecRepeated(f: Field, wire: nat, count: nat, items: seq<Value>, s: seq<byte>): (r: Option<(Slot, nat)>)
    ensures r.Some? ==> r.value.1 <= |s|
    decreases f, |s| + 1
  {
    if wire == WT_STRING && f.ltype.Packable() then
      if DelimitedEnd(s).None? then None
      else
        match DecPacked(f, Delimited(s), count, items)
        case None => None
        case Some(slot) => Some((slot, DelimitedEnd(s).value))
    else if count >= f.arraySize || count >= |items| then None
    else
      match DecValue(f.ltype, f.dataSize, true, items[count], s)
      case None => None
      case Some((v, n)) => Some((Many(count + 1, items[count := v]), n))
  }

  /** decode_static_field for any other field. A member of a oneof that is a submessage starts
      afresh. */
  function DecSingle(f: Field, has: bool, value: Value, s: seq<byte>): (r: Option<(Slot, nat)>)
    ensures r.Some? ==> r.value.1 <= |s|
    decreases f, 0
  {
    var start :=
      if f.htype.OneOf? && f.ltype.Submessage? then Msg(Defaults(f.ltype.fields, ZeroMessage(f.ltype.fields)))
      else value;
    match DecValue(f.ltype, f.dataSize, false, start, s)
    case None => None
    case Some((v, n)) => Some((Single(has || f.htype.Optional?, v), n))
  }

  /** decode_static_field */
  function DecSlot(f: Field, wire: nat, dest: Slot, s: seq<byte>): (r: Option<(Slot, nat)>)
    ensures r.Some? ==> r.value.1 <= |s|
    decreases f, |s| + 2
  {
    if f.htype.Repeated? && dest.Many? then DecRepeated(f, wire, dest.count, dest.items, s)
    else if !f.htype.Repeated? && dest.Single? then DecSingle(f, dest.has, dest.value, s)
    else None
  }

  // ----- Messages -----

  /** Where a decode stands: the message so far, and which required fields have been seen. */
  datatype Progress = Progress(message: Message, seen: set<nat>)

  /** The field at position i stored: a oneof's number becomes its tag, and it has been seen. */
  function Stored(f: Field, i: nat, st: Progress, slot: Slot): Progress
    requires i < |st.message.slots|
  {
    var which := if f.htype.OneOf? then st.message.which[f.htype.group := f.tag] else st.message.which;
    var seen := if f.htype.Required? then st.seen + {i} else st.seen;
    Progress(Message(st.message.slots[i := slot], which), seen)
  }

  /** The field at position i decoded into the message. */
  function DecField(fields: seq<Field>, i: nat, wire: nat, st: Progress, s: seq<byte>): (r: Option<(Progress, nat)>)
    requires i < |fields|
    ensures r.Some? ==> r.value.1 <= |s|
    decreases fields, |s|, 0
  {
    var f := fields[i];
    if i >= |st.message.slots| then None
    else
      match DecSlot(f, wire, st.message.slots[i], s)
      case None => None
      case Some((slot, n)) =>
        Some((Stored(f, i, st, slot), n))
  }

  /** What one turn of the loop does: it fails, ends the message, or moves on by n bytes. */
  datatype TurnResult = Fail | Stop | Go(st: Progress, n: nat)

  /** One turn of the loop of pb_decode_noinit, on a stream with bytes left. On an empty table the
      iterator rests on the terminator, whose tag is zero, so that a field numbered zero is found
      there and fails to decode. */
  function Turn(fields: seq<Field>, st: Progress, s: seq<byte>): (r: TurnResult)
    ensures r.Go? ==> 1 <= r.n <= |s|
    decreases fields, |s|, 1
  {
    match DecTag(s)
    case BadTag => Fail
    case EndTag => Stop
    case Tag(tag, wire, n) =>
      match PbCommon.Find(fields, tag)
      case Some(i) =>
        (match DecField(fields, i, wire, st, s[n..])
         case None => Fail
         case Some((st', k)) => Go(st', n + k))
      case None =>
        if fields == [] && tag == 0 then Fail
        else
          match SkipField(s[n..], wire)
          case None => Fail
          case Some(k) => Go(st, n + k)
  }

  /** The loop of pb_decode_noinit. */
  function DecLoop(fields: seq<Field>, st: Progress, s: seq<byte>): Option<Progress>
    decreases fields, |s|, 2
  {
    if s == [] then Some(st)
    else
      match Turn(fields, st, s)
      case Fail => None
      case Stop => Some(st)
      case Go(st', n) => DecLoop(fields, st', s[n..])
  }

  /** Each of the first 64 required fields has been seen. */
  predicate RequiredSeen(fields: seq<Field>, seen: set<nat>) {
    forall i :: 0 <= i < |fields| && fields[i].htype.Required? ==>
      PbCommon.RequiredBefore(fields, i) < PB_MAX_REQUIRED_FIELDS ==> i in seen
  }

  /** pb_decode_noinit */
  function DecNoInit(fields: seq<Field>, m: Message, s: seq<byte>): Option<Message>
    decreases fields, |s| + 1
  {
    match DecLoop(fields, Progress(m, {}), s)
    case None => None
    case Some(st) => if RequiredSeen(fields, st.seen) then Some(st.message) else None
  }

  /** pb_decode */
  function DecMessage(fields: seq<Field>, m: Message, s: seq<byte>): Option<Message> {
    DecNoInit(fields, Defaults(fields, m), s)
  }

  // ----- What a failed decode leaves -----

  /** Where the loop comes to its last turn, or to the end: the message so far, and the input left. */
  function LastTurn(fields: seq<Field>, st: Progress, s: seq<byte>): (Progress, seq<byte>)
    decreases |s|
  {
    if s == [] then (st, s)
    else
      match Turn(fields, st, s)
      case Fail => (st, s)
      case Stop => (st, s)
      case Go(st', n) => LastTurn(fields, st', s[n..])
  }

  /** A field that failed to decode, before and after. A flag is set all the same. An array keeps the
      items it had, and a packed one those that came before the failure; but if it is full, its count is
      incremented, in 16 bits, before one more item is refused. */
  ghost predicate Damaged(f: Field, wire: nat, s: Slot, t: Slot) {
    ShapedSlot(f, t) &&
    if f.htype.Repeated? then
      && s.Many?
      && (forall k :: 0 <= k < s.count && k < |t.items| && k < |s.items| ==> t.items[k] == s.items[k])
      && if wire == WT_STRING && f.ltype.Packable() then s.count <= t.count <= Max(s.count, f.arraySize)
         else if s.count >= f.arraySize then t == Many((s.count + 1) % (PB_SIZE_MAX + 1), s.items)
         else t.count == s.count + 1
    else s.Single? && t.has == (s.has || f.htype.Optional?)
  }

  /** What a turn that fails makes of m: only the field it was at is different. The number of a oneof has
      been set. */
  ghost predicate LeftByTurn(fields: seq<Field>, m: Message, s: seq<byte>, r: Message) {
    match DecTag(s)
    case BadTag => r == m
    case EndTag => r == m
    case Tag(tag, wire, _) =>
      match PbCommon.Find(fields, tag)
      case None => r == m
      case Some(i) =>
        var f := fields[i];
        && i < |m.slots| == |r.slots| && Damaged(f, wire, m.slots[i], r.slots[i])
        && (forall j :: 0 <= j < |m.slots| && j != i ==> r.slots[j] == m.slots[j])
        && r.which == if f.htype.OneOf? then m.which[f.htype.group := f.tag] else m.which
  }

  /** What pb_decode_noinit leaves when it fails: what the turns before the failing one have decoded, but
      for the field it was at. */
  ghost predicate Left(fields: seq<Field>, m: Message, s: seq<byte>, r: Message) {
    var (st, rest) := LastTurn(fields, Progress(m, {}), s);
    LeftByTurn(fields, st.message, rest, r)
  }
}
