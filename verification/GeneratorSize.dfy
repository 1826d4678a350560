/** The maximum encoded size lib/nanopb-0.3.9.3/generator/nanopb_generator.py computes for a message. */
module GeneratorSize {
  import opened Bytes
  import opened Powers
  import opened PbWire
  import opened PbTypes
  import opened PbEncode

  // pb_encode never writes more. The generator reads the .proto types, not the descriptor table, so this is
  // a second account of the same encoder.

  // ----- What the generator knows of a message -----

  datatype Kind =
    | TBool | TDouble | TFixed32 | TFixed64 | TFloat | TInt32 | TInt64
    | TSFixed32 | TSFixed64 | TSInt32 | TSInt64 | TUInt32 | TUInt64

  /** A scalar has the width of its C type in bytes, which the int_size option can override. */
  datatype PType =
    | Scalar(kind: Kind, width: nat)
    | Enum(values: seq<int>)
    | String(maxSize: nat)
    | Bytes(maxSize: nat)
    | FixedBytes(maxSize: nat)
    | MessageType(members: seq<Member>)

  datatype GField = GField(tag: nat, rules: HType, ptype: PType, maxCount: nat)

  /** An entry of Message.fields: a field, or a OneOf with its fields. */
  datatype Member = Plain(field: GField) | Union(group: nat, fields: seq<GField>)

  function MemberFields(m: Member): seq<GField> {
    match m
    case Plain(f) => [f]
    case Union(_, fields) => fields
  }

  // ----- The descriptor table that goes with it -----

  function KindLType(k: Kind): LType {
    match k
    case TBool | TInt32 | TInt64 => Varint
    case TUInt32 | TUInt64 => UVarint
    case TSInt32 | TSInt64 => SVarint
    case TFixed32 | TSFixed32 | TFloat => Fixed32
    case TFixed64 | TSFixed64 | TDouble => Fixed64
  }

  predicate HasNegative(values: seq<int>) { exists i :: 0 <= i < |values| && values[i] < 0 }

  function TypeLType(t: PType): LType
    decreases t
  {
    match t
    case Scalar(k, _) => KindLType(k)
    case Enum(values) => if HasNegative(values) then Varint else UVarint
    case String(_) => CharArray
    case Bytes(_) => BytesArray
    case FixedBytes(_) => FixedLengthBytes
    case MessageType(members) => Submessage(Table(members))
  }

  function TypeDataSize(t: PType): nat {
    match t
    case Scalar(_, width) => width
    case Enum(_) => 4
    case String(n) => n
    case Bytes(n) => n + BYTES_OFFSET
    case FixedBytes(n) => n
    case MessageType(_) => 0
  }

  /** The table entry of a field. Offsets, defaults and the size of a nested struct do not matter to
      the encoder. */
  function FieldOf(g: GField): Field
    decreases g
  {
    Field(g.tag, g.rules, TypeLType(g.ptype), 0, 0, TypeDataSize(g.ptype), g.maxCount, None)
  }

  function FieldsTable(gs: seq<GField>): (fields: seq<Field>)
    ensures |fields| == |gs|
    decreases gs
  {
    if gs == [] then [] else [FieldOf(gs[0])] + FieldsTable(gs[1..])
  }

  function MemberTable(m: Member): (fields: seq<Field>)
    ensures |fields| == |MemberFields(m)|
    decreases m
  {
    match m
    case Plain(f) => [FieldOf(f)]
    case Union(_, gs) => FieldsTable(gs)
  }

  function Table(members: seq<Member>): seq<Field>
    decreases members
  {
    if members == [] then [] else MemberTable(members[0]) + Table(members[1..])
  }

  // ----- The sizes, as functions; None where the generator raises an error -----

  /** 2^70: ten groups of seven bits. */
  const B70: int := 0x40_0000_0000_0000_0000

  /** What varint_max_size counts: the length of the minimal form, of at most ten bytes. */
  function VarintMax(n: int): Option<nat> {
    var m := if n < 0 then B64 - n else n;
    if m < B70 then Some(|EncVarint(m)|) else None
  }

  function Plus(a: Option<nat>, b: Option<nat>): Option<nat> {
    if a.Some? && b.Some? then Some(a.value + b.value) else None
  }

  function Larger(a: Option<nat>, b: Option<nat>): Option<nat> {
    if a.Some? && b.Some? then Some(if a.value < b.value then b.value else a.value) else None
  }

  /** The third column of the table of data types. */
  function KindSize(k: Kind): nat {
    match k
    case TBool => 1
    case TDouble | TFixed64 | TSFixed64 => 8
    case TFixed32 | TFloat | TSFixed32 => 4
    case TSInt32 | TUInt32 => 5
    case TInt32 | TInt64 | TSInt64 | TUInt64 => 10
  }

  /** Enum.encoded_size */
  function EnumMax(values: seq<int>): Option<nat>
    requires values != []
  {
    if |values| == 1 then VarintMax(values[0])
      else Larger(EnumMax(values[..|values| - 1]), VarintMax(values[|values| - 1]))
  }

  function TypeMax(t: PType): Option<nat>
    decreases t
  {
    match t
    case Scalar(k, _) => Some(KindSize(k))
    case Enum(values) => if values == [] then None else EnumMax(values)
    case String(n) => Plus(VarintMax(n), Some(n))
    case Bytes(n) => Plus(VarintMax(n), Some(n))
    case FixedBytes(n) => Plus(VarintMax(n), Some(n))
    case MessageType(members) =>
      match MessageMax(members)
      case None => None
      case Some(size) => Plus(Some(size), VarintMax(size))
  }

  /** Field.encoded_size */
  function FieldMax(g: GField): Option<nat>
    decreases g
  {
    match Plus(TypeMax(g.ptype), VarintMax(8 * g.tag))
    case None => None
    case Some(size) =>
      if g.rules.Repeated? then Some(size * g.maxCount + if g.maxCount == 1 then 1 else 0) else Some(size)
  }

  /** OneOf.encoded_size */
  function UnionMax(gs: seq<GField>): Option<nat>
    decreases gs
  {
    if gs == [] then Some(0) else Larger(FieldMax(gs[0]), UnionMax(gs[1..]))
  }

  function MemberMax(m: Member): Option<nat>
    decreases m
  {
    match m
    case Plain(f) => FieldMax(f)
    case Union(_, gs) => UnionMax(gs)
  }

  /** Message.encoded_size */
  function MessageMax(members: seq<Member>): Option<nat>
    decreases members
  {
    if members == [] then Some(0) else Plus(MemberMax(members[0]), MessageMax(members[1..]))
  }

  // ----- What a .proto file can declare, and the messages of such a type -----

  ghost predicate Declared(members: seq<Member>)
    decreases members
  {
    forall i :: 0 <= i < |members| ==> DeclaredMember(members[i])
  }

  ghost predicate DeclaredMember(m: Member)
    decreases m
  {
    match m
    case Plain(f) => !f.rules.OneOf? && DeclaredField(f)
    case Union(group, gs) =>
      && (forall i :: 0 <= i < |gs| ==> gs[i].rules == OneOf(group) && DeclaredField(gs[i]))
      && (forall i, j :: 0 <= i < j < |gs| ==> gs[i].tag != gs[j].tag)
  }

  /** An int_size option does not make a 32-bit number wider if its maximum size counts on 32 bits. */
  predicate NarrowEnough(k: Kind, width: nat) { k in {TSInt32, TUInt32} ==> width <= 4 }

  ghost predicate DeclaredField(g: GField)
    decreases g
  {
    match g.ptype
    case Scalar(k, width) => NarrowEnough(k, width)
    case Enum(values) => values != [] && forall i :: 0 <= i < |values| ==> -B31 <= values[i] < B31
    case MessageType(members) => Declared(members)
    case _ => true
  }

  /** The number of an enum field takes no more bytes than the longest declared one. */
  predicate NoLonger(values: seq<int>, n: int) {
    && values != [] && -B63 <= n < B63
    && (EnumMax(values).Some? ==> ToUnsigned(n) < Pow2(7 * EnumMax(values).value))
  }

  /** A value in the range of the field's C type that the generator has counted on: a bool takes one byte,
      as zero and one do, and an enum no more than its longest value. */
  ghost predicate ValueIn(t: PType, v: Value)
    decreases t
  {
    match t
    case Scalar(k, width) => InRangeValue(KindLType(k), width, v) && (k == TBool ==> 0 <= v.n < 128)
    case Enum(values) => InRangeValue(TypeLType(t), TypeDataSize(t), v) && NoLonger(values, v.n)
    case MessageType(members) => v.Msg? && MessageIn(members, v.message.slots, v.message.which)
    case _ => InRangeValue(TypeLType(t), TypeDataSize(t), v)
  }

  ghost predicate SlotIn(g: GField, s: Slot, which: map<nat, nat>)
    decreases g
  {
    if g.rules.Repeated? then
      s.Many? && s.count <= |s.items| == g.maxCount && forall k :: 0 <= k < s.count ==> ValueIn(g.ptype, s.items[k])
    else s.Single? && (Present(FieldOf(g), s, which) ==> ValueIn(g.ptype, s.value))
  }

  ghost predicate FieldsIn(gs: seq<GField>, slots: seq<Slot>, which: map<nat, nat>)
    decreases gs
  {
    |slots| == |gs| && forall i :: 0 <= i < |gs| ==> SlotIn(gs[i], slots[i], which)
  }

  ghost predicate MemberIn(m: Member, slots: seq<Slot>, which: map<nat, nat>)
    decreases m
  {
    match m
    case Plain(f) => |slots| == 1 && SlotIn(f, slots[0], which)
    case Union(_, gs) => FieldsIn(gs, slots, which)
  }

  /** The slots of a message whose values are all counted on. */
  ghost predicate MessageIn(members: seq<Member>, slots: seq<Slot>, which: map<nat, nat>)
    decreases members
  {
    if members == [] then slots == []
    else
      var k := |MemberTable(members[0])|;
      k <= |slots| && MemberIn(members[0], slots[..k], which) && MessageIn(members[1..], slots[k..], which)
  }

  // ----- Lengths of varints -----

  /** The wire type does not make a tag longer. */
  lemma {:induction false} TagLength(tag: nat, wire: nat)
    requires wire < 8
    ensures |EncVarint(8 * tag + wire)| == |EncVarint(8 * tag)|
  {
    // Both numbers have the same sixteenth, and it is what is left after the first group.
    var n, t := 8 * tag + wire, tag / 16;
    assert n / 128 == t && 8 * tag / 128 == t && (n < 128 <==> 8 * tag < 128);
    FirstGroup(n);
    FirstGroup(8 * tag);
  }

  lemma FirstGroup(n: nat)
    ensures |EncVarint(n)| == if n < 128 then 1 else 1 + |EncVarint(n / 128)|
  {
  }

  lemma VarintBits(n: nat, bits: nat, k: nat)
    requires n < Pow2(bits) && bits <= 7 * k && k >= 1
    ensures |EncVarint(n)| <= k
  {
    hide Pow2;
    Pow2Monotone(bits, 7 * k);
    EncVarintLength(n, k);
  }

  // ----- Values -----

  lemma ScalarBound(k: Kind, width: nat, v: Value)
    requires NarrowEnough(k, width) && ValueIn(Scalar(k, width), v) && EncValue(KindLType(k), width, v).Some?
    ensures |EncValue(KindLType(k), width, v).value| <= KindSize(k)
  {
    hide Pow2, EncVarint, EncFixed;
    Pow2Large();
    var lt := KindLType(k);
    if lt.SVarint? {
      ZigZagFits(v.n, 8 * width);
      VarintBits(ZigZag(v.n), 8 * width, KindSize(k));
    } else if lt.UVarint? {
      VarintBits(v.n, 8 * width, KindSize(k));
    } else if lt.Varint? {
      if k == TBool {
        VarintBits(ToUnsigned(v.n), 7, 1);
      } else {
        VarintBits(ToUnsigned(v.n), 64, 10);
      }
    }
  }

  /** The bound holds for every value exactly if the width is one the generator counts on. */
  lemma OverrideMatters(k: Kind, width: nat)
    requires width in {1, 2, 4, 8}
    ensures
      (forall v :: ValueIn(Scalar(k, width), v) && EncValue(KindLType(k), width, v).Some? ==>
         |EncValue(KindLType(k), width, v).value| <= KindSize(k)) <==>
      NarrowEnough(k, width)
  {
    hide Pow2, EncVarint;
    if NarrowEnough(k, width) {
      forall v | ValueIn(Scalar(k, width), v) && EncValue(KindLType(k), width, v).Some?
        ensures |EncValue(KindLType(k), width, v).value| <= KindSize(k)
      {
        ScalarBound(k, width, v);
      }
    } else {
      WideValue(k);
      var v := Num(B63 - 1);
      assert ValueIn(Scalar(k, width), v) && |EncValue(KindLType(k), width, v).value| > KindSize(k);
    }
  }

  lemma WideValue(k: Kind)
    requires k in {TSInt32, TUInt32}
    ensures ValueIn(Scalar(k, 8), Num(B63 - 1)) && EncValue(KindLType(k), 8, Num(B63 - 1)).Some?
    ensures |EncValue(KindLType(k), 8, Num(B63 - 1)).value| > 5
  {
    hide Pow2, EncVarint;
    Pow2Large();
    Pow2Monotone(35, 62);
    assert Pow2(63) == 2 * Pow2(62) by { Pow2Add(1, 62); OneBit(); }
    VarintAtLeast(B63 - 1, 5);
    VarintAtLeast(ZigZag(B63 - 1), 5);
  }

  lemma {:induction false} VarintAtLeast(n: nat, k: nat)
    requires n >= Pow2(7 * k)
    ensures |EncVarint(n)| > k
    decreases k
  {
    hide Pow2;
    if k > 0 {
      SevenMore(k - 1);
      var p := Pow2(7 * (k - 1));
      assert n / 128 >= p && n >= 128;
      VarintAtLeast(n / 128, k - 1);
    }
  }

  lemma SevenMore(k: nat)
    ensures Pow2(7 * (k + 1)) == 128 * Pow2(7 * k)
  {
    Pow2Add(7, 7 * k);
    assert Pow2(7) == 128;
  }

  lemma ZigZagFits(n: int, bits: nat)
    requires bits >= 1 && FitsSigned(n, bits)
    ensures ZigZag(n) < Pow2(bits)
  {
    assert Pow2(bits) == 2 * Pow2(bits - 1);
  }

  /** A value of an enum is no longer than the longest, with negative numbers sign-extended. */
  lemma {:induction false} EnumBound(values: seq<int>, n: int)
    requires values != [] && n in values && EnumMax(values).Some? && -B31 <= n < B31
    ensures |EncVarint(ToUnsigned(n))| <= EnumMax(values).value
    decreases |values|
  {
    hide EncVarint, Pow2;
    var last := |values| - 1;
    if n == values[last] {
      if n < 0 {
        VarintLonger(ToUnsigned(n), B64 - n);
      }
    } else {
      EnumBound(values[..last], n);
    }
  }

  lemma {:induction false} EnumAtLeastOne(values: seq<int>)
    requires values != [] && EnumMax(values).Some?
    ensures EnumMax(values).value >= 1
    decreases |values|
  {
    hide EncVarint;
    if |values| == 1 {
      VarintAtLeastOne(if values[0] < 0 then B64 - values[0] else values[0]);
    } else {
      EnumAtLeastOne(values[..|values| - 1]);
    }
  }

  /** The declared values themselves are counted on. */
  lemma DeclaredValue(values: seq<int>, n: int)
    requires values != [] && n in values && forall i :: 0 <= i < |values| ==> -B31 <= values[i] < B31
    ensures ValueIn(Enum(values), Num(n))
  {
    hide EncVarint, Pow2, EnumMax;
    Pow2Large();
    if EnumMax(values).Some? {
      EnumBound(values, n);
      if ToUnsigned(n) >= Pow2(7 * EnumMax(values).value) {
        VarintAtLeast(ToUnsigned(n), EnumMax(values).value);
      }
    }
  }

  /** A number in the range of its C type takes no more bytes than counted exactly if it is a value the
      generator has counted on. */
  lemma CountedOn(t: PType, v: Value)
    requires (t.Scalar? || t.Enum?) && DeclaredField(GField(0, Required, t, 0)) && TypeMax(t).Some?
    requires InRangeValue(TypeLType(t), TypeDataSize(t), v) && EncValue(TypeLType(t), TypeDataSize(t), v).Some?
    ensures |EncValue(TypeLType(t), TypeDataSize(t), v).value| <= TypeMax(t).value <==> ValueIn(t, v)
  {
    hide EncVarint, Pow2, EnumMax, HasNegative, EncFixed, FitsSigned;
    if ValueIn(t, v) {
      ValueBound(t, v);
    } else {
      AsUnsigned(t, v);
      assert Pow2(7) == 128 by { Pow2Large(); }
      VarintAtLeast(ToUnsigned(v.n), TypeMax(t).value);
    }
  }

  /** So for a field that holds one number: it takes no more than Field.encoded_size bytes exactly if the
      number is counted on. */
  lemma NumberFieldExactly(g: GField, s: Slot, which: map<nat, nat>)
    requires (g.ptype.Scalar? || g.ptype.Enum?) && !g.rules.Repeated? && DeclaredField(g) && FieldMax(g).Some?
    requires InRangeSlot(FieldOf(g), s, which) && Present(FieldOf(g), s, which)
    ensures EncField(FieldOf(g), s, which).Some?
    ensures |EncField(FieldOf(g), s, which).value| <= FieldMax(g).value <==> SlotIn(g, s, which)
  {
    hide InRangeValue, TypeMax, EncValue, TypeLType, TypeDataSize, EncVarint, DeclaredField, ValueIn;
    var f := FieldOf(g);
    FieldEncodes(f, s, which);
    SameType(g);
    CountedOn(g.ptype, s.value);
    TagLength(g.tag, WireType(f.ltype));
  }

  /** How a bool or an enum is written. */
  lemma AsUnsigned(t: PType, v: Value)
    requires t.Enum? || (t.Scalar? && t.kind == TBool)
    requires InRangeValue(TypeLType(t), TypeDataSize(t), v)
    ensures v.Num? && -B63 <= v.n < B63
    ensures EncValue(TypeLType(t), TypeDataSize(t), v) == Some(EncVarint(ToUnsigned(v.n)))
  {
    hide EncVarint, Pow2, HasNegative;
    Pow2Large();
    if TypeLType(t).Varint? {
      SignedRoundTrip(v.n, 8 * TypeDataSize(t));
    }
  }

  lemma StringBound(b: seq<byte>, n: nat)
    requires |b| <= n
    ensures |EncString(b)| <= |EncVarint(n)| + n
  {
    VarintLonger(|b|, n);
  }

  lemma {:induction false} ValueBound(t: PType, v: Value)
    requires DeclaredField(GField(0, Required, t, 0)) && ValueIn(t, v) && TypeMax(t).Some?
    requires EncValue(TypeLType(t), TypeDataSize(t), v).Some?
    ensures |EncValue(TypeLType(t), TypeDataSize(t), v).value| <= TypeMax(t).value
    decreases t, 0
  {
    hide Pow2, EncVarint, KindLType, KindSize, MessageMax, MessageIn, Declared, EncMessage, Table, EnumMax, HasNegative,
      EncFixed, FitsSigned;
    match t
    case Scalar(k, width) => ScalarBound(k, width, v);
    case Enum(values) =>
      EnumAtLeastOne(values);
      EncVarintLength(ToUnsigned(v.n), EnumMax(values).value);
    case MessageType(members) =>
      hide EncString;
      var e := EncMessage(Table(members), v.message).value;
      MessageBound(members, v.message);
      StringBound(e, MessageMax(members).value);
    case String(n) =>
      hide EncString;
      StringBound(CString(v.bytes, n), n);
    case Bytes(n) =>
      hide EncString;
      StringBound(v.bytes, n);
    case FixedBytes(n) =>
      hide EncString;
      StringBound(v.bytes, n);
  }

  // ----- Fields -----

  lemma {:induction false} PackedBound(g: GField, vs: seq<Value>)
    requires DeclaredField(g) && TypeMax(g.ptype).Some? && EncPacked(FieldOf(g), vs).Some?
    requires forall k :: 0 <= k < |vs| ==> ValueIn(g.ptype, vs[k])
    ensures |EncPacked(FieldOf(g), vs).value| <= |vs| * TypeMax(g.ptype).value
    decreases g.ptype, 1, |vs|
  {
    hide ValueIn, TypeMax, EncValue, TypeLType, TypeDataSize, DeclaredField;
    if vs != [] {
      SameType(g);
      ValueBound(g.ptype, vs[0]);
      PackedBound(g, vs[1..]);
      OneMore(|vs| - 1, TypeMax(g.ptype).value);
    }
  }

  lemma OneMore(n: nat, p: nat)
    ensures (n + 1) * p == n * p + p
  {
  }

  lemma SameType(g: GField)
    requires DeclaredField(g)
    ensures DeclaredField(GField(0, Required, g.ptype, 0))
  {
    hide Declared;
  }

  lemma {:induction false} TaggedBound(g: GField, v: Value)
    requires DeclaredField(g) && TypeMax(g.ptype).Some? && ValueIn(g.ptype, v) && EncTagged(FieldOf(g), v).Some?
    ensures |EncTagged(FieldOf(g), v).value| <= TypeMax(g.ptype).value + |EncVarint(8 * g.tag)|
    decreases g.ptype, 1, 0
  {
    hide ValueIn, TypeMax, EncValue, TypeLType, TypeDataSize, EncVarint, DeclaredField;
    SameType(g);
    ValueBound(g.ptype, v);
    TagLength(g.tag, WireType(TypeLType(g.ptype)));
  }

  lemma {:induction false} UnpackedBound(g: GField, vs: seq<Value>)
    requires DeclaredField(g) && TypeMax(g.ptype).Some? && EncUnpacked(FieldOf(g), vs).Some?
    requires forall k :: 0 <= k < |vs| ==> ValueIn(g.ptype, vs[k])
    ensures |EncUnpacked(FieldOf(g), vs).value| <= |vs| * (TypeMax(g.ptype).value + |EncVarint(8 * g.tag)|)
    decreases g.ptype, 2, |vs|
  {
    hide ValueIn, TypeMax, EncTagged, FieldOf, EncVarint, DeclaredField;
    if vs != [] {
      TaggedBound(g, vs[0]);
      UnpackedBound(g, vs[1..]);
      OneMore(|vs| - 1, TypeMax(g.ptype).value + |EncVarint(8 * g.tag)|);
    }
  }

  /** Numbers take at most ten bytes. */
  lemma NumberBound(t: PType)
    requires TypeLType(t).Packable() && TypeMax(t).Some?
    ensures TypeMax(t).value <= 10
  {
    hide EncVarint, Pow2, HasNegative;
    if t.Enum? {
      EnumShort(t.values);
    }
  }

  lemma TenGroups()
    ensures Pow2(70) == B70
  {
    hide Pow2;
    Pow2Large();
    Pow2Add(63, 7);
  }

  lemma {:induction false} EnumShort(values: seq<int>)
    requires values != [] && EnumMax(values).Some?
    ensures EnumMax(values).value <= 10
    decreases |values|
  {
    hide EncVarint, Pow2;
    var last := values[|values| - 1];
    TenGroups();
    EncVarintLength(if last < 0 then B64 - last else last, 10);
    if |values| > 1 {
      EnumShort(values[..|values| - 1]);
    }
  }

  /** A packed array of count items of at most p bytes is no longer than max items with their tags, or
      one byte longer if there is only one. */
  lemma PackedFits(count: nat, max: nat, p: nat, t: nat, size: nat)
    requires 1 <= count <= max && p <= 10 && t >= 1 && size <= count * p
    ensures t + |EncVarint(size)| + size <= max * (p + t) + if max == 1 then 1 else 0
  {
    hide EncVarint;
    VarintShort(size);
    MulLess(count, max, p);
    MulLess(p, 10, max);
    SplitTags(max, p, t);
    PackedSum(max, max * p, max * t, t, |EncVarint(size)|, size);
  }

  lemma SplitTags(max: nat, p: nat, t: nat)
    requires max >= 1 && t >= 1
    ensures max * (p + t) == max * p + max * t && max * t >= t + (max - 1) && (max == 1 ==> max * t == t)
  {
    MulLess(1, t, max - 1);
    assert (max - 1) * t == max * t - t;
  }

  lemma PackedSum(max: nat, items: nat, tags: nat, t: nat, v: nat, size: nat)
    requires max >= 1 && v >= 1 && size <= items <= 10 * max && 64 * (v - 1) <= size
    requires tags >= t + (max - 1)
    ensures t + v + size <= items + tags + if max == 1 then 1 else 0
  {
  }

  lemma {:induction false} FieldBound(g: GField, s: Slot, which: map<nat, nat>)
    requires DeclaredField(g) && SlotIn(g, s, which) && FieldMax(g).Some?
    ensures Length(EncField(FieldOf(g), s, which)) <= FieldMax(g).value
    ensures !Present(FieldOf(g), s, which) ==> Length(EncField(FieldOf(g), s, which)) == 0
    decreases g
  {
    hide ValueIn, TypeMax, EncTagged, EncArray, TypeLType, TypeDataSize, EncVarint, DeclaredField, Pow2;
    var f := FieldOf(g);
    if EncField(f, s, which).Some? {
      if g.rules.Repeated? {
        ArrayBound(g, s.items[..s.count]);
      } else if Present(f, s, which) {
        TaggedBound(g, s.value);
      }
    }
  }

  lemma {:induction false} ArrayBound(g: GField, vs: seq<Value>)
    requires DeclaredField(g) && g.rules.Repeated? && FieldMax(g).Some? && |vs| <= g.maxCount
    requires forall k :: 0 <= k < |vs| ==> ValueIn(g.ptype, vs[k])
    requires EncArray(FieldOf(g), vs).Some?
    ensures |EncArray(FieldOf(g), vs).value| <= FieldMax(g).value
    ensures vs == [] ==> |EncArray(FieldOf(g), vs).value| == 0
    decreases g.ptype, 3, 0
  {
    hide ValueIn, TypeMax, EncPacked, EncUnpacked, TypeLType, TypeDataSize, EncVarint, EncTag, EncString, DeclaredField;
    if vs != [] {
      if TypeLType(g.ptype).Packable() {
        PackedArrayBound(g, vs);
      } else {
        UnpackedBound(g, vs);
        MulLess(|vs|, g.maxCount, TypeMax(g.ptype).value + |EncVarint(8 * g.tag)|);
      }
    }
  }

  lemma {:induction false} PackedArrayBound(g: GField, vs: seq<Value>)
    requires DeclaredField(g) && g.rules.Repeated? && TypeMax(g.ptype).Some? && 1 <= |vs| <= g.maxCount
    requires forall k :: 0 <= k < |vs| ==> ValueIn(g.ptype, vs[k])
    requires TypeLType(g.ptype).Packable() && EncPacked(FieldOf(g), vs).Some?
    ensures
      |EncTag(WT_STRING, g.tag) + EncString(EncPacked(FieldOf(g), vs).value)| <=
      g.maxCount * (TypeMax(g.ptype).value + |EncVarint(8 * g.tag)|) + if g.maxCount == 1 then 1 else 0
    decreases g.ptype, 2, 0
  {
    hide ValueIn, TypeMax, EncPacked, TypeLType, TypeDataSize, EncVarint, DeclaredField;
    NumberBound(g.ptype);
    PackedBound(g, vs);
    TagLength(g.tag, WT_STRING);
    PackedFits(|vs|, g.maxCount, TypeMax(g.ptype).value, |EncVarint(8 * g.tag)|, |EncPacked(FieldOf(g), vs).value|);
  }

  // ----- Messages -----

  lemma {:induction false} SizesAppend(a: seq<Field>, b: seq<Field>, s: seq<Slot>, t: seq<Slot>, which: map<nat, nat>)
    requires |a| == |s|
    ensures Sizes(a + b, s + t, which) == Sizes(a, s, which) + Sizes(b, t, which)
    decreases |a|
  {
    hide EncField;
    if a == [] {
      assert a + b == b && s + t == t;
    } else {
      assert (a + b)[1..] == a[1..] + b && (s + t)[1..] == s[1..] + t;
      SizesAppend(a[1..], b, s[1..], t, which);
    }
  }

  /** A oneof none of whose members is chosen takes no bytes. */
  lemma {:induction false} UnionAbsent(gs: seq<GField>, slots: seq<Slot>, which: map<nat, nat>, group: nat)
    requires FieldsIn(gs, slots, which)
    requires forall i :: 0 <= i < |gs| ==> gs[i].rules == OneOf(group) && !(group in which && which[group] == gs[i].tag)
    ensures Sizes(FieldsTable(gs), slots, which) == 0
    decreases gs
  {
    hide SlotIn, EncTagged, EncArray;
    if gs != [] {
      UnionAbsent(gs[1..], slots[1..], which, group);
      assert SlotIn(gs[0], slots[0], which);
      NotChosen(gs[0], slots[0], which);
    }
  }

  lemma NotChosen(g: GField, s: Slot, which: map<nat, nat>)
    requires g.rules.OneOf? && SlotIn(g, s, which)
    requires !(g.rules.group in which && which[g.rules.group] == g.tag)
    ensures EncField(FieldOf(g), s, which) == Some([])
  {
    hide TypeLType, TypeDataSize, ValueIn;
  }

  /** OneOf.encoded_size is the size of the largest member, or none if a member has none. */
  lemma {:induction false} UnionLargest(gs: seq<GField>)
    ensures UnionMax(gs).Some? <==> forall i :: 0 <= i < |gs| ==> FieldMax(gs[i]).Some?
    ensures UnionMax(gs).Some? ==>
      && (forall i :: 0 <= i < |gs| ==> FieldMax(gs[i]).value <= UnionMax(gs).value)
      && (gs == [] ==> UnionMax(gs).value == 0)
      && (gs != [] ==> exists i :: 0 <= i < |gs| && FieldMax(gs[i]) == UnionMax(gs))
    decreases gs
  {
    hide FieldMax;
    if gs != [] {
      UnionLargest(gs[1..]);
      if UnionMax(gs).Some? {
        if FieldMax(gs[0]) == UnionMax(gs) || |gs| == 1 {
          assert UnionMax([]) == Some(0);
          assert FieldMax(gs[0]) == UnionMax(gs);
        } else {
          var i :| 0 <= i < |gs[1..]| && FieldMax(gs[1..][i]) == UnionMax(gs[1..]);
          assert gs[i + 1] == gs[1..][i];
        }
      }
    }
  }

  /** A oneof takes no more than its largest member, because at most one is there. */
  lemma {:induction false} UnionBound(gs: seq<GField>, slots: seq<Slot>, which: map<nat, nat>, group: nat)
    requires FieldsIn(gs, slots, which) && DeclaredMember(Union(group, gs)) && UnionMax(gs).Some?
    ensures Sizes(FieldsTable(gs), slots, which) <= UnionMax(gs).value
    decreases gs
  {
    hide SlotIn, EncField, FieldMax, DeclaredField, FieldOf;
    if gs != [] {
      FieldBound(gs[0], slots[0], which);
      if group in which && which[group] == gs[0].tag {
        UnionAbsent(gs[1..], slots[1..], which, group);
      } else {
        assert !Present(FieldOf(gs[0]), slots[0], which) by { RulesOf(gs[0]); }
        UnionBound(gs[1..], slots[1..], which, group);
      }
    }
  }

  lemma RulesOf(g: GField)
    ensures FieldOf(g).htype == g.rules && FieldOf(g).tag == g.tag
  {
    hide TypeLType, TypeDataSize;
  }

  lemma {:induction false} MemberBound(m: Member, slots: seq<Slot>, which: map<nat, nat>)
    requires DeclaredMember(m) && MemberIn(m, slots, which) && MemberMax(m).Some?
    ensures Sizes(MemberTable(m), slots, which) <= MemberMax(m).value
    decreases m
  {
    hide SlotIn, EncField, FieldMax, DeclaredField, FieldOf;
    match m
    case Plain(f) =>
      FieldBound(f, slots[0], which);
    case Union(group, gs) =>
      UnionBound(gs, slots, which, group);
  }

  lemma {:induction false} MembersBound(members: seq<Member>, slots: seq<Slot>, which: map<nat, nat>)
    requires Declared(members) && MessageIn(members, slots, which) && MessageMax(members).Some?
    ensures |slots| == |Table(members)| && Sizes(Table(members), slots, which) <= MessageMax(members).value
    decreases members, 1
  {
    hide DeclaredMember, MemberIn, MemberTable, MemberMax, Sizes;
    if members == [] {
      NoSizes(slots, which);
    } else {
      var first := MemberTable(members[0]);
      var k := |first|;
      MemberBound(members[0], slots[..k], which);
      MembersBound(members[1..], slots[k..], which);
      SizesAppend(first, Table(members[1..]), slots[..k], slots[k..], which);
      assert slots[..k] + slots[k..] == slots;
    }
  }

  lemma NoSizes(slots: seq<Slot>, which: map<nat, nat>)
    ensures Sizes([], slots, which) == 0
  {
  }

  /** pb_encode never writes more than the generator's maximum, for any message of any type it can
      declare whose bools and enums take no more bytes than counted. */
  lemma {:induction false} MessageBound(members: seq<Member>, m: Message)
    requires Declared(members) && MessageIn(members, m.slots, m.which) && MessageMax(members).Some?
    requires EncMessage(Table(members), m).Some?
    ensures |EncMessage(Table(members), m).value| <= MessageMax(members).value
    decreases members, 2
  {
    hide Declared, MessageIn, MessageMax, Table, EncFrom, Sizes;
    var fields := Table(members);
    MembersBound(members, m.slots, m.which);
    EncFromSize(fields, m, 0);
    assert fields[0..] == fields && m.slots[0..] == m.slots;
  }

  // ----- The order of the fields -----

  function Without<T>(xs: seq<T>, i: nat): seq<T>
    requires i < |xs|
  {
    xs[..i] + xs[i + 1..]
  }

  /** b has the fields of a in another order, and so do the nested messages and the oneofs. The
      generator sorts by tag what a .proto file declares in any order. */
  ghost predicate Reordered(a: seq<Member>, b: seq<Member>)
    decreases a
  {
    |a| == |b| &&
    (a == [] || exists i :: 0 <= i < |b| && LikeMember(a[0], b[i]) && Reordered(a[1..], Without(b, i)))
  }

  ghost predicate LikeMember(m: Member, n: Member)
    decreases m
  {
    match m
    case Plain(f) => n.Plain? && LikeField(f, n.field)
    case Union(group, gs) => n.Union? && n.group == group && LikeFields(gs, n.fields)
  }

  ghost predicate LikeFields(gs: seq<GField>, hs: seq<GField>)
    decreases gs
  {
    |gs| == |hs| &&
    (gs == [] || exists i :: 0 <= i < |hs| && LikeField(gs[0], hs[i]) && LikeFields(gs[1..], Without(hs, i)))
  }

  ghost predicate LikeField(g: GField, h: GField)
    decreases g
  {
    g.tag == h.tag && g.rules == h.rules && g.maxCount == h.maxCount && LikeType(g.ptype, h.ptype)
  }

  ghost predicate LikeType(t: PType, u: PType)
    decreases t
  {
    if t.MessageType? then u.MessageType? && Reordered(t.members, u.members) else t == u
  }

  /** Message.encoded_size adds up the fields as declared, the table has them by tag: the sum is the
      same, at every level of nesting. */
  lemma {:induction false} SizeOrder(a: seq<Member>, b: seq<Member>)
    requires Reordered(a, b)
    ensures MessageMax(a) == MessageMax(b)
    decreases a
  {
    hide MemberMax, LikeMember;
    if a != [] {
      var i :| 0 <= i < |b| && LikeMember(a[0], b[i]) && Reordered(a[1..], Without(b, i));
      MemberOrder(a[0], b[i]);
      SizeOrder(a[1..], Without(b, i));
      SizeTaken(b, i);
    }
  }

  lemma {:induction false} MemberOrder(m: Member, n: Member)
    requires LikeMember(m, n)
    ensures MemberMax(m) == MemberMax(n)
    decreases m
  {
    hide FieldMax, UnionMax, LikeField, LikeFields;
    match m
    case Plain(f) =>
      FieldOrder(f, n.field);
    case Union(_, gs) =>
      UnionOrder(gs, n.fields);
  }

  lemma {:induction false} UnionOrder(gs: seq<GField>, hs: seq<GField>)
    requires LikeFields(gs, hs)
    ensures UnionMax(gs) == UnionMax(hs)
    decreases gs
  {
    hide FieldMax, LikeField;
    if gs != [] {
      var i :| 0 <= i < |hs| && LikeField(gs[0], hs[i]) && LikeFields(gs[1..], Without(hs, i));
      FieldOrder(gs[0], hs[i]);
      UnionOrder(gs[1..], Without(hs, i));
      UnionTaken(hs, i);
    }
  }

  lemma {:induction false} FieldOrder(g: GField, h: GField)
    requires LikeField(g, h)
    ensures FieldMax(g) == FieldMax(h)
    decreases g
  {
    hide Reordered, MessageMax, VarintMax, EnumMax;
    if g.ptype.MessageType? {
      SizeOrder(g.ptype.members, h.ptype.members);
    }
  }

  lemma {:induction false} SizeTaken(b: seq<Member>, i: nat)
    requires i < |b|
    ensures MessageMax(b) == Plus(MemberMax(b[i]), MessageMax(Without(b, i)))
    decreases i
  {
    hide MemberMax;
    if i == 0 {
      assert Without(b, 0) == b[1..];
    } else {
      SizeTaken(b[1..], i - 1);
      assert Without(b[1..], i - 1) == Without(b, i)[1..];
    }
  }

  lemma {:induction false} UnionTaken(hs: seq<GField>, i: nat)
    requires i < |hs|
    ensures UnionMax(hs) == Larger(FieldMax(hs[i]), UnionMax(Without(hs, i)))
    decreases i
  {
    hide FieldMax;
    if i == 0 {
      assert Without(hs, 0) == hs[1..];
    } else {
      UnionTaken(hs[1..], i - 1);
      assert Without(hs[1..], i - 1) == Without(hs, i)[1..];
    }
  }

  /** Every message is in some order, and any permutation of its fields is another. */
  lemma {:induction false} SameOrder(a: seq<Member>)
    ensures Reordered(a, a)
    decreases a
  {
    hide LikeMember;
    if a != [] {
      SameMember(a[0]);
      SameOrder(a[1..]);
      assert Without(a, 0) == a[1..];
    }
  }

  lemma {:induction false} SameMember(m: Member)
    ensures LikeMember(m, m)
    decreases m
  {
    hide LikeField, LikeFields;
    match m
    case Plain(f) =>
      SameField(f);
    case Union(_, gs) =>
      SameFields(gs);
  }

  lemma {:induction false} SameFields(gs: seq<GField>)
    ensures LikeFields(gs, gs)
    decreases gs
  {
    hide LikeField;
    if gs != [] {
      SameField(gs[0]);
      SameFields(gs[1..]);
      assert Without(gs, 0) == gs[1..];
    }
  }

  lemma {:induction false} SameField(g: GField)
    ensures LikeField(g, g)
    decreases g
  {
    hide Reordered;
    if g.ptype.MessageType? {
      SameOrder(g.ptype.members);
    }
  }

  lemma {:induction false} PermutedIsReordered(a: seq<Member>, b: seq<Member>)
    requires multiset(a) == multiset(b)
    ensures Reordered(a, b)
    decreases |a|
  {
    hide LikeMember;
    if a == [] {
      EmptyBag(b);
    } else {
      var i := BagHead(a, b);
      SameMember(a[0]);
      PermutedIsReordered(a[1..], Without(b, i));
      assert |Without(b, i)| == |b| - 1;
    }
  }

  lemma EmptyBag<T>(b: seq<T>)
    requires multiset(b) == multiset([])
    ensures b == []
  {
    assert |b| == |multiset(b)|;
  }

  /** The first of a, where it is in b, and what is left of both. */
  lemma BagHead<T>(a: seq<T>, b: seq<T>) returns (i: nat)
    requires a != [] && multiset(a) == multiset(b)
    ensures i < |b| && b[i] == a[0] && multiset(a[1..]) == multiset(b[..i] + b[i + 1..])
  {
    BagRest(a);
    i := BagIndex(b, a[0]);
    BagTaken(b, i);
  }

  lemma BagRest<T>(a: seq<T>)
    requires a != []
    ensures a[0] in multiset(a) && multiset(a[1..]) == multiset(a) - multiset{a[0]}
  {
    assert a == [a[0]] + a[1..];
  }

  lemma BagIndex<T>(b: seq<T>, x: T) returns (i: nat)
    requires x in multiset(b)
    ensures i < |b| && b[i] == x
  {
    i :| 0 <= i < |b| && b[i] == x;
  }

  lemma BagTaken<T>(b: seq<T>, i: nat)
    requires i < |b|
    ensures multiset(b[..i] + b[i + 1..]) == multiset(b) - multiset{b[i]}
  {
    assert b == b[..i] + ([b[i]] + b[i + 1..]);
  }

  /** The generator's maximum, computed over the fields as declared, holds for every in-range message
      of the table that lists them by tag and whose bools and enums are counted on; and every such
      message encodes. */
  lemma GeneratorBound(declared: seq<Member>, members: seq<Member>, m: Message)
    requires Reordered(declared, members) && Declared(members) && MessageMax(declared).Some?
    requires InRangeMessage(Table(members), m) && MessageIn(members, m.slots, m.which)
    ensures EncMessage(Table(members), m).Some?
    ensures |EncMessage(Table(members), m).value| <= MessageMax(declared).value
  {
    hide Declared, MessageIn, MessageMax, Table, EncMessage, InRangeMessage, Reordered;
    SizeOrder(declared, members);
    MessageEncodes(Table(members), m);
    MessageBound(members, m);
  }

  // ----- The code -----

  /** varint_max_size */
  method VarintMaxSize(maxValue: int) returns (r: Option<nat>)
    ensures r == VarintMax(maxValue)
  {
    hide EncVarint, Pow2;
    var value: nat := if maxValue < 0 then B64 - maxValue else maxValue;
    TenGroups();
    VarintAtLeastOne(value);
    var i := 1;
    while i < 11
      invariant 1 <= i <= 11 && |EncVarint(value)| >= i && (i > 1 ==> value >= Pow2(7 * (i - 1)))
    {
      ShiftedOut(value, Pow2(7 * i));
      if value / Pow2(7 * i) == 0 {
        EncVarintLength(value, i);
        Pow2Monotone(7 * i, 70);
        return Some(i);
      }
      VarintAtLeast(value, i);
      i := i + 1;
    }
    r := None;
  }

  lemma VarintAtLeastOne(n: nat)
    ensures |EncVarint(n)| >= 1
  {
  }

  lemma ShiftedOut(n: nat, p: nat)
    requires p > 0
    ensures n / p == 0 <==> n < p
  {
    if n < p {
      ModUnique(n, 0, n, p);
    }
  }

  /** Enum.encoded_size */
  method EnumEncodedSize(values: seq<int>) returns (r: Option<nat>)
    requires values != []
    ensures r == EnumMax(values)
  {
    hide VarintMax;
    r := VarintMaxSize(values[0]);
    assert values[..1] == [values[0]];
    for i := 1 to |values|
      invariant r == EnumMax(values[..i])
    {
      assert values[..i + 1][..i] == values[..i];
      var size := VarintMaxSize(values[i]);
      r := Larger(r, size);
    }
    assert values[..|values|] == values;
  }

  /** The part of Field.encoded_size that depends on the type. */
  method TypeEncodedSize(t: PType) returns (r: Option<nat>)
    requires t.Enum? ==> t.values != []
    requires t.MessageType? ==> Declared(t.members)
    ensures r == TypeMax(t)
    decreases t
  {
    hide VarintMax, EnumMax, MessageMax, Declared;
    match t
    case Scalar(k, _) =>
      r := Some(KindSize(k));
    case Enum(values) =>
      r := EnumEncodedSize(values);
    case String(n) =>
      r := VarintMaxSize(n);
      r := Plus(r, Some(n));
    case Bytes(n) =>
      r := VarintMaxSize(n);
      r := Plus(r, Some(n));
    case FixedBytes(n) =>
      r := VarintMaxSize(n);
      r := Plus(r, Some(n));
    case MessageType(members) =>
      r := MessageEncodedSize(members);
      if r.Some? {
        var prefix := VarintMaxSize(r.value);
        r := Plus(r, prefix);
      }
  }

  /** Field.encoded_size of a static field whose submessages are known. */
  method FieldEncodedSize(g: GField) returns (r: Option<nat>)
    requires DeclaredField(g)
    ensures r == FieldMax(g)
    decreases g
  {
    hide VarintMax, TypeMax, Declared;
    var size := TypeEncodedSize(g.ptype);
    var tag := VarintMaxSize(8 * g.tag);
    r := Plus(size, tag);
    if r.Some? && g.rules.Repeated? {
      var total := r.value * g.maxCount;
      if g.maxCount == 1 {
        total := total + 1;
      }
      r := Some(total);
    }
  }

  lemma LargerFrom(a: Option<nat>, b: Option<nat>, c: Option<nat>)
    ensures Larger(Larger(a, b), c) == Larger(a, Larger(b, c))
  {
  }

  /** OneOf.encoded_size */
  method OneOfEncodedSize(gs: seq<GField>) returns (r: Option<nat>)
    requires forall i :: 0 <= i < |gs| ==> DeclaredField(gs[i])
    ensures r == UnionMax(gs)
    decreases gs
  {
    hide FieldMax, DeclaredField;
    var largest: nat := 0;
    assert gs[0..] == gs;
    var i := 0;
    while i < |gs|
      invariant 0 <= i <= |gs|
      invariant UnionMax(gs) == Larger(Some(largest), UnionMax(gs[i..]))
    {
      assert gs[i..][1..] == gs[i + 1..];
      var size := FieldEncodedSize(gs[i]);
      LargerFrom(Some(largest), size, UnionMax(gs[i + 1..]));
      if size.None? {
        return None;
      }
      if size.value > largest {
        largest := size.value;
      }
      i := i + 1;
    }
    r := Some(largest);
  }

  /** A field's encoded_size, or a OneOf's. */
  method MemberEncodedSize(m: Member) returns (r: Option<nat>)
    requires DeclaredMember(m)
    ensures r == MemberMax(m)
    decreases m
  {
    hide FieldMax, UnionMax, DeclaredField;
    match m
    case Plain(f) =>
      r := FieldEncodedSize(f);
    case Union(_, gs) =>
      r := OneOfEncodedSize(gs);
  }

  /** Message.encoded_size */
  method MessageEncodedSize(members: seq<Member>) returns (r: Option<nat>)
    requires Declared(members)
    ensures r == MessageMax(members)
    decreases members
  {
    hide MemberMax, DeclaredMember;
    var size := 0;
    assert members[0..] == members;
    var i := 0;
    while i < |members|
      invariant 0 <= i <= |members| && size >= 0
      invariant MessageMax(members) == Plus(Some(size), MessageMax(members[i..]))
    {
      assert members[i..][1..] == members[i + 1..];
      assert DeclaredMember(members[i]);
      var fsize := MemberEncodedSize(members[i]);
      if fsize.None? {
        return None;
      }
      size := size + fsize.value;
      i := i + 1;
    }
    r := Some(size);
  }
}
