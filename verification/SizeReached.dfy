/** Exactly when the maximum size of lib/nanopb-0.3.9.3/generator/nanopb_generator.py is reached. */
module SizeReached {
  import opened Bytes
  import opened Powers
  import opened PbWire
  import opened PbTypes
  import opened PbEncode
  import opened GeneratorSize

  // The size is an upper bound for every type. A string is counted with its terminator, a number with an int_size
  // option with its full width, an array of numbers with a tag for each, and an array of one with a length: there
  // it is too large, and everywhere else some message has exactly this size.

  // ----- Where the size is reached -----

  /** The width the generator counts on. */
  predicate FullKind(k: Kind, width: nat) {
    match k
    case TSInt32 | TUInt32 => width == 4
    case TSInt64 | TUInt64 => width == 8
    case TBool | TInt32 | TInt64 => width in {1, 2, 4, 8}
    case _ => true
  }

  predicate FullType(t: PType)
    decreases t
  {
    match t
    case Scalar(k, width) => FullKind(k, width)
    case String(_) => false
    case MessageType(members) => Full(members)
    case _ => true
  }

  /** An array of one counts a length that only packed numbers have, and a longer array of numbers counts a tag for
      each, of which one and the length are written. */
  predicate FullField(g: GField)
    decreases g
  {
    if !g.rules.Repeated? then FullType(g.ptype)
    else if g.maxCount == 0 then true
    else if !TypeLType(g.ptype).Packable() then FullType(g.ptype) && g.maxCount != 1
    else
      && FullType(g.ptype) && TypeMax(g.ptype).Some?
      && (g.maxCount == 1 ||
          |EncVarint(g.maxCount * TypeMax(g.ptype).value)| == (g.maxCount - 1) * |EncVarint(8 * g.tag)|)
  }

  /** Some field of the size max is full. */
  predicate HasFull(gs: seq<GField>, max: Option<nat>)
    decreases gs
  {
    gs != [] && ((FieldMax(gs[0]) == max && FullField(gs[0])) || HasFull(gs[1..], max))
  }

  predicate FullMember(m: Member)
    decreases m
  {
    match m
    case Plain(f) => FullField(f)
    case Union(_, gs) => gs == [] || HasFull(gs, UnionMax(gs))
  }

  predicate Full(members: seq<Member>)
    decreases members
  {
    members == [] || (FullMember(members[0]) && Full(members[1..]))
  }

  // ----- A message of that size -----

  /** The number of an enum that takes the most bytes. */
  function LongestEnum(values: seq<int>): int
    requires values != []
  {
    var last := |values| - 1;
    if last == 0 then values[0]
    else if VarintMax(LongestEnum(values[..last])) == EnumMax(values) then LongestEnum(values[..last])
    else values[last]
  }

  function LongestNumber(k: Kind): int {
    match k
    case TBool => 1
    case TInt32 | TInt64 => -1
    case TSInt32 => -B31
    case TSInt64 => -B63
    case TUInt32 => B32 - 1
    case TUInt64 => B64 - 1
    case _ => 0
  }

  function LongestValue(t: PType): Value
    decreases t
  {
    match t
    case Scalar(k, _) => Num(LongestNumber(k))
    case Enum(values) => Num(if values == [] then 0 else LongestEnum(values))
    case String(n) => Blob([])
    case Bytes(n) => Blob(Zeros(n))
    case FixedBytes(n) => Blob(Zeros(n))
    case MessageType(members) => Msg(Message(LongestSlots(members), LongestWhich(members)))
  }

  function Copies(v: Value, k: nat): (vs: seq<Value>)
    ensures |vs| == k && forall i :: 0 <= i < k ==> vs[i] == v
  {
    seq(k, _ => v)
  }

  function LongestSlot(g: GField): Slot
    decreases g
  {
    if g.rules.Repeated? then Many(g.maxCount, Copies(LongestValue(g.ptype), g.maxCount))
    else Single(true, LongestValue(g.ptype))
  }

  function LongestUnion(gs: seq<GField>): (slots: seq<Slot>)
    ensures |slots| == |gs|
    decreases gs
  {
    if gs == [] then [] else [LongestSlot(gs[0])] + LongestUnion(gs[1..])
  }

  function LongestMember(m: Member): seq<Slot>
    decreases m
  {
    match m
    case Plain(f) => [LongestSlot(f)]
    case Union(_, gs) => LongestUnion(gs)
  }

  function LongestSlots(members: seq<Member>): seq<Slot>
    decreases members
  {
    if members == [] then [] else LongestMember(members[0]) + LongestSlots(members[1..])
  }

  /** The tag of the first full field of the size max. */
  function Chosen(gs: seq<GField>, max: Option<nat>): nat
    decreases gs
  {
    if gs == [] then 0
    else if FieldMax(gs[0]) == max && FullField(gs[0]) then gs[0].tag
    else Chosen(gs[1..], max)
  }

  function LongestWhich(members: seq<Member>): map<nat, nat>
    decreases members
  {
    if members == [] then map[]
    else
      match members[0]
      case Plain(_) => LongestWhich(members[1..])
      case Union(group, gs) => LongestWhich(members[1..])[group := Chosen(gs, UnionMax(gs))]
  }

  // ----- Different oneofs have different numbers -----

  predicate Separate(members: seq<Member>)
    decreases members
  {
    members == [] ||
    (SeparateMember(members[0]) && Separate(members[1..]) &&
     (members[0].Union? ==> !HasGroup(members[1..], members[0].group)))
  }

  predicate HasGroup(members: seq<Member>, group: nat) {
    members != [] && ((members[0].Union? && members[0].group == group) || HasGroup(members[1..], group))
  }

  predicate SeparateMember(m: Member)
    decreases m
  {
    match m
    case Plain(f) => SeparateField(f)
    case Union(_, gs) => SeparateFields(gs)
  }

  predicate SeparateFields(gs: seq<GField>)
    decreases gs
  {
    gs == [] || (SeparateField(gs[0]) && SeparateFields(gs[1..]))
  }

  predicate SeparateField(g: GField)
    decreases g
  {
    g.ptype.MessageType? ==> Separate(g.ptype.members)
  }

  /** Each oneof has the number of the field chosen from it. */
  predicate Chooses(members: seq<Member>, which: map<nat, nat>) {
    members == [] ||
    (Chooses(members[1..], which) &&
     (members[0].Union? ==>
        members[0].group in which && which[members[0].group] == Chosen(members[0].fields, UnionMax(members[0].fields))))
  }

  lemma {:induction false} ChoosesMore(members: seq<Member>, which: map<nat, nat>, group: nat, tag: nat)
    requires Chooses(members, which) && !HasGroup(members, group)
    ensures Chooses(members, which[group := tag])
    decreases members
  {
    hide Chosen, UnionMax;
    if members != [] {
      ChoosesMore(members[1..], which, group, tag);
    }
  }

  lemma {:induction false} WhichChooses(members: seq<Member>)
    requires Separate(members)
    ensures Chooses(members, LongestWhich(members))
    decreases members
  {
    hide Chosen, UnionMax;
    if members != [] {
      WhichChooses(members[1..]);
      if members[0].Union? {
        ChoosesMore(members[1..], LongestWhich(members[1..]), members[0].group,
          Chosen(members[0].fields, UnionMax(members[0].fields)));
      }
    }
  }

  // ----- Values -----

  lemma VarintIs(n: nat, k: nat)
    requires k >= 1 && n < Pow2(7 * k) && (k > 1 ==> n >= Pow2(7 * (k - 1)))
    ensures |EncVarint(n)| == k
  {
    hide Pow2, EncVarint;
    EncVarintLength(n, k);
    if k > 1 {
      VarintAtLeast(n, k - 1);
    } else {
      VarintAtLeastOne(n);
    }
  }

  lemma TenBytes(n: nat)
    requires B63 <= n < B70
    ensures |EncVarint(n)| == 10
  {
    hide Pow2, EncVarint;
    Pow2Large();
    TenGroups();
    VarintIs(n, 10);
  }

  lemma FiveBytes(n: nat)
    requires B31 <= n < B32
    ensures |EncVarint(n)| == 5
  {
    hide Pow2, EncVarint;
    Pow2Large();
    Pow28();
    Pow35();
    VarintIs(n, 5);
  }

  lemma NumberReached(k: Kind, width: nat)
    requires FullKind(k, width)
    ensures ValueIn(Scalar(k, width), Num(LongestNumber(k)))
    ensures
      var e := EncValue(KindLType(k), width, Num(LongestNumber(k)));
      e.Some? && |e.value| == KindSize(k)
  {
    hide Pow2, EncVarint, EncFixed;
    Pow2Large();
    var n, bits := LongestNumber(k), 8 * width;
    match k
    case TBool => SmallFits(n, width);
      assert |EncVarint(1)| == 1 by { VarintShort(1); }
    case TInt32 | TInt64 => SmallFits(n, width);
      TenBytes(B64 - 1);
    case TSInt32 | TUInt32 => FiveBytes(B32 - 1);
    case TSInt64 | TUInt64 => TenBytes(B64 - 1);
    case _ =>
  }

  lemma SmallFits(n: int, width: nat)
    requires -1 <= n <= 1 && width in {1, 2, 4, 8}
    ensures FitsSigned(n, 8 * width)
  {
    hide Pow2;
    Pow2Monotone(7, 8 * width - 1);
    Pow2Large();
  }

  lemma {:induction false} EnumLongest(values: seq<int>)
    requires values != [] && EnumMax(values).Some?
    ensures LongestEnum(values) in values && VarintMax(LongestEnum(values)) == EnumMax(values)
    decreases |values|
  {
    hide VarintMax;
    if |values| > 1 {
      var front := values[..|values| - 1];
      EnumLongest(front);
    }
  }

  lemma EnumReached(values: seq<int>)
    requires values != [] && EnumMax(values).Some?
    requires forall i :: 0 <= i < |values| ==> -B31 <= values[i] < B31
    ensures -B31 <= LongestEnum(values) < B31
    ensures |EncVarint(ToUnsigned(LongestEnum(values)))| == EnumMax(values).value
  {
    hide EncVarint, EnumMax, LongestEnum;
    EnumLongest(values);
    var n := LongestEnum(values);
    if n < 0 {
      TenBytes(B64 - n);
      TenBytes(n + B64);
    }
  }

  lemma ZerosReached(n: nat)
    ensures |EncString(Zeros(n))| == |EncVarint(n)| + n
  {
    hide EncVarint;
  }

  lemma {:induction false} ValueReached(t: PType)
    requires DeclaredField(GField(0, Required, t, 0)) && SeparateField(GField(0, Required, t, 0))
    requires TypeMax(t).Some? && FullType(t)
    ensures ValueIn(t, LongestValue(t)) && EncValue(TypeLType(t), TypeDataSize(t), LongestValue(t)).Some?
    ensures |EncValue(TypeLType(t), TypeDataSize(t), LongestValue(t)).value| == TypeMax(t).value
    decreases t, 0
  {
    hide Pow2, EncVarint, KindLType, KindSize, MessageMax, MessageIn, Declared, EncMessage, Table, EnumMax, HasNegative;
    hide EncFixed, FitsSigned, LongestSlots, LongestWhich, LongestNumber, LongestEnum, Full, Separate, FullKind;
    match t
    case Scalar(k, width) => NumberReached(k, width);
    case Enum(values) =>
      EnumLongest(values);
      EnumReached(values);
      DeclaredValue(values, LongestEnum(values));
      AsUnsigned(t, Num(LongestEnum(values)));
    case MessageType(members) =>
      hide EncString;
      MessageReached(members);
      var e := EncMessage(Table(members), Message(LongestSlots(members), LongestWhich(members))).value;
      assert |EncString(e)| == |EncVarint(|e|)| + |e| by { StringSize(e); }
    case String(n) =>
    case Bytes(n) => ZerosReached(n);
    case FixedBytes(n) => ZerosReached(n);
  }

  lemma StringSize(b: seq<byte>)
    ensures |EncString(b)| == |EncVarint(|b|)| + |b|
  {
    hide EncVarint;
  }

  // ----- Strings -----

  /** n bytes that are not zero. */
  function Letters(n: nat): (b: seq<byte>)
    ensures |b| == n && ZeroFree(b)
  {
    seq(n, _ => 1)
  }

  lemma {:induction false} LettersWhole(n: nat, max: nat)
    requires n <= max
    ensures CString(Letters(n), max) == Letters(n)
    decreases n
  {
    if n > 0 {
      assert Letters(n)[1..] == Letters(n - 1);
      LettersWhole(n - 1, max - 1);
      assert Letters(n) == [1] + Letters(n - 1);
    }
  }

  /** A string field of n bytes is counted with n bytes of text. It holds n - 1, and that many are written. */
  lemma StringCounted(n: nat)
    requires n >= 1 && TypeMax(String(n)).Some?
    ensures TypeMax(String(n)).value == |EncVarint(n)| + n
    ensures
      var v := Blob(Letters(n - 1));
      && ValueIn(String(n), v) && EncValue(TypeLType(String(n)), TypeDataSize(String(n)), v).Some?
      && |EncValue(TypeLType(String(n)), TypeDataSize(String(n)), v).value| == |EncVarint(n - 1)| + (n - 1)
    ensures forall v ::
      ValueIn(String(n), v) && EncValue(TypeLType(String(n)), TypeDataSize(String(n)), v).Some? ==>
        |EncValue(TypeLType(String(n)), TypeDataSize(String(n)), v).value| <= |EncVarint(n - 1)| + (n - 1)
  {
    hide EncVarint, CString, EncString, Letters;
    LettersWhole(n - 1, n);
    StringSize(Letters(n - 1));
    forall v | ValueIn(String(n), v) && EncValue(TypeLType(String(n)), TypeDataSize(String(n)), v).Some?
      ensures |EncValue(TypeLType(String(n)), TypeDataSize(String(n)), v).value| <= |EncVarint(n - 1)| + (n - 1)
    {
      CStringShort(String(n), v);
      StringBound(CString(v.bytes, n), n - 1);
    }
  }

  // ----- Fields -----

  lemma {:induction false} PackedReached(g: GField, v: Value, k: nat)
    requires EncValue(TypeLType(g.ptype), TypeDataSize(g.ptype), v).Some?
    ensures
      var e := EncPacked(FieldOf(g), Copies(v, k));
      e.Some? && |e.value| == k * |EncValue(TypeLType(g.ptype), TypeDataSize(g.ptype), v).value|
    decreases k
  {
    hide EncValue, TypeLType, TypeDataSize;
    if k > 0 {
      assert Copies(v, k)[1..] == Copies(v, k - 1);
      PackedReached(g, v, k - 1);
      OneMore(k - 1, |EncValue(TypeLType(g.ptype), TypeDataSize(g.ptype), v).value|);
    }
  }

  lemma {:induction false} UnpackedReached(g: GField, v: Value, k: nat)
    requires EncTagged(FieldOf(g), v).Some?
    ensures
      var e := EncUnpacked(FieldOf(g), Copies(v, k));
      e.Some? && |e.value| == k * |EncTagged(FieldOf(g), v).value|
    decreases k
  {
    hide EncTagged, FieldOf;
    if k > 0 {
      assert Copies(v, k)[1..] == Copies(v, k - 1);
      UnpackedReached(g, v, k - 1);
      OneMore(k - 1, |EncTagged(FieldOf(g), v).value|);
    }
  }

  lemma TaggedReached(g: GField, v: Value)
    requires EncValue(TypeLType(g.ptype), TypeDataSize(g.ptype), v).Some?
    ensures
      var e := EncTagged(FieldOf(g), v);
      e.Some? && |e.value| == |EncVarint(8 * g.tag)| + |EncValue(TypeLType(g.ptype), TypeDataSize(g.ptype), v).value|
  {
    hide EncValue, TypeLType, TypeDataSize, EncVarint;
    TagLength(g.tag, WireType(TypeLType(g.ptype)));
  }

  /** The slot of a full field is in range and takes all the bytes of its size, if it is there. */
  lemma {:induction false} FieldReached(g: GField, which: map<nat, nat>)
    requires DeclaredField(g) && SeparateField(g) && FieldMax(g).Some? && FullField(g)
    ensures SlotIn(g, LongestSlot(g), which)
    ensures g.rules.OneOf? ==> g.rules.group in which && which[g.rules.group] == g.tag ==>
      Length(EncField(FieldOf(g), LongestSlot(g), which)) == FieldMax(g).value
    ensures !g.rules.OneOf? ==> Length(EncField(FieldOf(g), LongestSlot(g), which)) == FieldMax(g).value
    ensures EncField(FieldOf(g), LongestSlot(g), which).Some?
    decreases g
  {
    hide ValueIn, TypeMax, EncTagged, EncArray, TypeLType, TypeDataSize, EncVarint, DeclaredField, SeparateField;
    hide LongestValue, FullType;
    SameType(g);
    assert SeparateField(GField(0, Required, g.ptype, 0)) by { SameSeparate(g); }
    if g.rules.Repeated? {
      ArrayReached(g);
      var vs := Copies(LongestValue(g.ptype), g.maxCount);
      assert vs[..g.maxCount] == vs;
    } else {
      ValueReached(g.ptype);
      TaggedReached(g, LongestValue(g.ptype));
    }
  }

  lemma SameSeparate(g: GField)
    requires SeparateField(g)
    ensures SeparateField(GField(0, Required, g.ptype, 0))
  {
    hide Separate;
  }

  lemma {:induction false} ArrayReached(g: GField)
    requires DeclaredField(GField(0, Required, g.ptype, 0)) && SeparateField(GField(0, Required, g.ptype, 0))
    requires FieldMax(g).Some? && FullField(g) && g.rules.Repeated?
    ensures
      var vs := Copies(LongestValue(g.ptype), g.maxCount);
      && (g.maxCount > 0 ==> ValueIn(g.ptype, LongestValue(g.ptype)))
      && EncArray(FieldOf(g), vs).Some? && |EncArray(FieldOf(g), vs).value| == FieldMax(g).value
    decreases g.ptype, 2
  {
    hide ValueIn, TypeMax, EncPacked, EncUnpacked, TypeLType, TypeDataSize, EncVarint, EncTag, EncString, DeclaredField;
    hide LongestValue, FullType, EncValue, SeparateField;
    if g.maxCount > 0 {
      ValueReached(g.ptype);
      var v := LongestValue(g.ptype);
      if TypeLType(g.ptype).Packable() {
        PackedReached(g, v, g.maxCount);
        PackedArrayReached(g);
      } else {
        TaggedReached(g, v);
        UnpackedReached(g, v, g.maxCount);
      }
    }
  }

  lemma PackedSize(g: GField, vs: seq<Value>)
    requires TypeLType(g.ptype).Packable() && 1 <= |vs| <= g.maxCount && EncPacked(FieldOf(g), vs).Some?
    ensures EncArray(FieldOf(g), vs).Some?
    ensures
      var e := EncPacked(FieldOf(g), vs).value;
      |EncArray(FieldOf(g), vs).value| == |EncVarint(8 * g.tag)| + |EncVarint(|e|)| + |e|
  {
    hide EncPacked, TypeLType, TypeDataSize, EncVarint, EncString;
    TagLength(g.tag, WT_STRING);
    StringSize(EncPacked(FieldOf(g), vs).value);
  }

  lemma PackedArrayReached(g: GField)
    requires FieldMax(g).Some? && FullField(g) && g.rules.Repeated? && g.maxCount > 0 && TypeLType(g.ptype).Packable()
    requires
      var e := EncPacked(FieldOf(g), Copies(LongestValue(g.ptype), g.maxCount));
      e.Some? && |e.value| == g.maxCount * TypeMax(g.ptype).value
    ensures
      var e := EncArray(FieldOf(g), Copies(LongestValue(g.ptype), g.maxCount));
      e.Some? && |e.value| == FieldMax(g).value
  {
    hide TypeMax, EncPacked, EncUnpacked, TypeLType, TypeDataSize, EncVarint, EncString, LongestValue, FullType;
    var k, p, t := g.maxCount, TypeMax(g.ptype).value, |EncVarint(8 * g.tag)|;
    var e := EncPacked(FieldOf(g), Copies(LongestValue(g.ptype), k)).value;
    PackedSize(g, Copies(LongestValue(g.ptype), k));
    NumberBound(g.ptype);
    if k == 1 {
      VarintShort(p);
    }
    SplitSizes(k, p, t);
  }

  lemma SplitSizes(k: nat, p: nat, t: nat)
    requires k >= 1
    ensures (p + t) * k == k * p + t + (k - 1) * t
  {
  }

  // ----- Messages -----

  /** Every field of the table encodes. */
  predicate AllEncode(fields: seq<Field>, slots: seq<Slot>, which: map<nat, nat>) {
    fields == [] ||
    (slots != [] && EncField(fields[0], slots[0], which).Some? && AllEncode(fields[1..], slots[1..], which))
  }

  lemma {:induction false} AllEncodeAppend(a: seq<Field>, b: seq<Field>, s: seq<Slot>, t: seq<Slot>,
    which: map<nat, nat>)
    requires |a| == |s| && AllEncode(a, s, which) && AllEncode(b, t, which)
    ensures AllEncode(a + b, s + t, which)
    decreases |a|
  {
    hide EncField;
    if a == [] {
      assert a + b == b && s + t == t;
    } else {
      assert (a + b)[1..] == a[1..] + b && (s + t)[1..] == s[1..] + t;
      AllEncodeAppend(a[1..], b, s[1..], t, which);
    }
  }

  lemma {:induction false} EncFromAll(fields: seq<Field>, m: Message, i: nat)
    requires i <= |fields| == |m.slots| && AllEncode(fields[i..], m.slots[i..], m.which)
    ensures EncFrom(fields, m, i).Some?
    decreases |fields| - i
  {
    hide EncField;
    if i < |fields| {
      assert fields[i..][1..] == fields[i + 1..] && m.slots[i..][1..] == m.slots[i + 1..];
      EncFromAll(fields, m, i + 1);
    }
  }

  /** The slots are in range, encode, and take size bytes together. */
  ghost predicate Reached(fields: seq<Field>, slots: seq<Slot>, which: map<nat, nat>, size: nat) {
    |slots| == |fields| && AllEncode(fields, slots, which) && Sizes(fields, slots, which) == size
  }

  lemma ReachedAppend(a: seq<Field>, b: seq<Field>, s: seq<Slot>, t: seq<Slot>, which: map<nat, nat>, m: nat, n: nat)
    requires Reached(a, s, which, m) && Reached(b, t, which, n)
    ensures Reached(a + b, s + t, which, m + n)
  {
    hide AllEncode, Sizes;
    AllEncodeAppend(a, b, s, t, which);
    SizesAppend(a, b, s, t, which);
  }

  lemma NothingReached(which: map<nat, nat>)
    ensures Reached([], [], which, 0)
  {
  }

  lemma OneReached(f: Field, s: Slot, which: map<nat, nat>)
    requires EncField(f, s, which).Some?
    ensures Reached([f], [s], which, Length(EncField(f, s, which)))
  {
    hide EncField;
    assert [f][1..] == [] && [s][1..] == [];
    NoSizes([], which);
    assert Sizes([f], [s], which) == Length(EncField(f, s, which)) + Sizes([f][1..], [s][1..], which);
    assert AllEncode([f], [s], which) by { assert AllEncode([f][1..], [s][1..], which); }
  }

  /** The fields of a oneof that are not chosen take nothing, whatever their slots hold. */
  lemma {:induction false} UnionIdle(gs: seq<GField>, which: map<nat, nat>, group: nat)
    requires forall i :: 0 <= i < |gs| ==> gs[i].rules == OneOf(group)
    requires group in which && forall i :: 0 <= i < |gs| ==> gs[i].tag != which[group]
    ensures FieldsIn(gs, LongestUnion(gs), which)
    ensures Reached(FieldsTable(gs), LongestUnion(gs), which, 0)
    decreases gs
  {
    hide LongestSlot, EncField, FieldOf, Reached, SlotIn;
    if gs == [] {
      NothingReached(which);
    } else {
      IdleSlot(gs[0], which);
      UnionIdle(gs[1..], which, group);
      OneReached(FieldOf(gs[0]), LongestSlot(gs[0]), which);
      ReachedAppend([FieldOf(gs[0])], FieldsTable(gs[1..]), [LongestSlot(gs[0])], LongestUnion(gs[1..]), which, 0, 0);
    }
  }

  lemma IdleSlot(g: GField, which: map<nat, nat>)
    requires g.rules.OneOf? && g.rules.group in which && which[g.rules.group] != g.tag
    ensures SlotIn(g, LongestSlot(g), which) && EncField(FieldOf(g), LongestSlot(g), which) == Some([])
  {
    hide LongestValue, ValueIn, TypeLType, TypeDataSize;
    NotChosen(g, LongestSlot(g), which);
  }

  lemma {:induction false} ChosenIn(gs: seq<GField>, max: Option<nat>) returns (i: nat)
    requires HasFull(gs, max)
    ensures i < |gs| && gs[i].tag == Chosen(gs, max) && FieldMax(gs[i]) == max && FullField(gs[i])
    decreases gs
  {
    hide FieldMax, FullField;
    if FieldMax(gs[0]) == max && FullField(gs[0]) {
      i := 0;
    } else {
      i := ChosenIn(gs[1..], max);
      i := i + 1;
    }
  }

  lemma {:induction false} UnionReached(gs: seq<GField>, which: map<nat, nat>, group: nat, max: Option<nat>)
    requires DeclaredMember(Union(group, gs)) && SeparateFields(gs) && HasFull(gs, max) && max.Some?
    requires group in which && which[group] == Chosen(gs, max)
    ensures FieldsIn(gs, LongestUnion(gs), which)
    ensures Reached(FieldsTable(gs), LongestUnion(gs), which, max.value)
    decreases gs, 1
  {
    hide LongestSlot, EncField, FieldOf, Reached, SlotIn, FieldMax, FullField, DeclaredField, SeparateField;
    var f, s := FieldOf(gs[0]), LongestSlot(gs[0]);
    if FieldMax(gs[0]) == max && FullField(gs[0]) {
      FieldReached(gs[0], which);
      UnionIdle(gs[1..], which, group);
      OneReached(f, s, which);
      ReachedAppend([f], FieldsTable(gs[1..]), [s], LongestUnion(gs[1..]), which, max.value, 0);
    } else {
      var i := ChosenIn(gs[1..], max);
      IdleSlot(gs[0], which);
      UnionReached(gs[1..], which, group, max);
      OneReached(f, s, which);
      ReachedAppend([f], FieldsTable(gs[1..]), [s], LongestUnion(gs[1..]), which, 0, max.value);
    }
  }

  lemma {:induction false} MemberReached(m: Member, which: map<nat, nat>)
    requires DeclaredMember(m) && SeparateMember(m) && MemberMax(m).Some? && FullMember(m)
    requires m.Union? ==> m.group in which && which[m.group] == Chosen(m.fields, UnionMax(m.fields))
    ensures MemberIn(m, LongestMember(m), which)
    ensures Reached(MemberTable(m), LongestMember(m), which, MemberMax(m).value)
    decreases m
  {
    hide LongestSlot, EncField, FieldOf, Reached, SlotIn, FieldMax, FullField, DeclaredField, SeparateField, HasFull;
    match m
    case Plain(f) =>
      FieldReached(f, which);
      OneReached(FieldOf(f), LongestSlot(f), which);
    case Union(group, gs) =>
      if gs == [] {
        NothingReached(which);
      } else {
        UnionReached(gs, which, group, UnionMax(gs));
      }
  }

  lemma {:induction false} MembersReached(members: seq<Member>, which: map<nat, nat>)
    requires Declared(members) && Separate(members) && MessageMax(members).Some? && Full(members)
    requires Chooses(members, which)
    ensures MessageIn(members, LongestSlots(members), which)
    ensures Reached(Table(members), LongestSlots(members), which, MessageMax(members).value)
    decreases members, 1
  {
    hide DeclaredMember, SeparateMember, FullMember, MemberIn, MemberTable, MemberMax, LongestMember, Reached;
    hide Chosen, UnionMax;
    if members == [] {
      NothingReached(which);
    } else {
      var first, slots := MemberTable(members[0]), LongestMember(members[0]);
      MemberReached(members[0], which);
      MembersReached(members[1..], which);
      ReachedLength(first, slots, which, MemberMax(members[0]).value);
      var all := LongestSlots(members);
      assert all[..|first|] == slots && all[|first|..] == LongestSlots(members[1..]);
      ReachedAppend(first, Table(members[1..]), slots, LongestSlots(members[1..]), which,
        MemberMax(members[0]).value, MessageMax(members[1..]).value);
    }
  }

  lemma ReachedLength(fields: seq<Field>, slots: seq<Slot>, which: map<nat, nat>, size: nat)
    requires Reached(fields, slots, which, size)
    ensures |slots| == |fields|
  {
    hide AllEncode, Sizes;
  }

  /** A message of declared values whose encoding has exactly the size the generator computes. */
  lemma {:induction false} MessageReached(members: seq<Member>)
    requires Declared(members) && Separate(members) && MessageMax(members).Some? && Full(members)
    ensures MessageIn(members, LongestSlots(members), LongestWhich(members))
    ensures
      var e := EncMessage(Table(members), Message(LongestSlots(members), LongestWhich(members)));
      e.Some? && |e.value| == MessageMax(members).value
    decreases members, 2
  {
    hide Declared, Separate, MessageMax, Full, Chooses, MessageIn, Table, AllEncode, Sizes, EncFrom;
    hide LongestSlots, LongestWhich;
    var fields, m := Table(members), Message(LongestSlots(members), LongestWhich(members));
    WhichChooses(members);
    MembersReached(members, m.which);
    assert fields[0..] == fields && m.slots[0..] == m.slots;
    EncFromAll(fields, m, 0);
    EncFromSize(fields, m, 0);
  }

  // ----- Everywhere else it is too large -----

  lemma NumberShort(k: Kind, width: nat, v: Value)
    requires NarrowEnough(k, width) && ValueIn(Scalar(k, width), v) && EncValue(KindLType(k), width, v).Some?
    requires !FullKind(k, width)
    ensures |EncValue(KindLType(k), width, v).value| < KindSize(k)
  {
    hide Pow2, EncVarint, EncFixed;
    var bits := if k in {TSInt32, TUInt32} then 16 else 32;
    assert 8 * width <= bits;
    if KindLType(k).SVarint? {
      ZigZagFits(v.n, 8 * width);
      Pow2Monotone(8 * width, bits);
      VarintBits(ZigZag(v.n), bits, KindSize(k) - 1);
    } else {
      Pow2Monotone(8 * width, bits);
      VarintBits(v.n, bits, KindSize(k) - 1);
    }
  }

  lemma StringShort(b: seq<byte>, n: nat)
    requires |b| < n
    ensures |EncString(b)| < |EncVarint(n)| + n
  {
    VarintLonger(|b|, n);
  }

  lemma CStringShort(t: PType, v: Value)
    requires t.String? && InRangeValue(TypeLType(t), TypeDataSize(t), v)
    ensures v.Blob? && |CString(v.bytes, t.maxSize)| < t.maxSize
    ensures EncValue(TypeLType(t), TypeDataSize(t), v) == Some(EncString(CString(v.bytes, t.maxSize)))
  {
    hide CString, EncString, ZeroFree;
  }

  lemma {:induction false} ValueShort(t: PType, v: Value)
    requires DeclaredField(GField(0, Required, t, 0)) && ValueIn(t, v) && TypeMax(t).Some?
    requires EncValue(TypeLType(t), TypeDataSize(t), v).Some? && !FullType(t)
    ensures |EncValue(TypeLType(t), TypeDataSize(t), v).value| < TypeMax(t).value
    decreases t, 0
  {
    hide Pow2, EncVarint, KindLType, KindSize, MessageMax, MessageIn, Declared, EncMessage, Table, EnumMax, HasNegative;
    hide EncFixed, FitsSigned, EncString, CString, Full, FullKind;
    match t
    case Scalar(k, width) => NumberShort(k, width, v);
    case MessageType(members) =>
      MessageShort(members, v.message);
      StringShort(EncMessage(Table(members), v.message).value, MessageMax(members).value);
    case String(n) =>
      CStringShort(t, v);
      StringShort(CString(v.bytes, n), n);
    case _ =>
  }

  /** A field that is not full stays below its size. */
  lemma {:induction false} FieldShort(g: GField, s: Slot, which: map<nat, nat>)
    requires DeclaredField(g) && SlotIn(g, s, which) && FieldMax(g).Some? && !FullField(g)
    ensures Length(EncField(FieldOf(g), s, which)) < FieldMax(g).value
    decreases g
  {
    hide ValueIn, TypeMax, EncTagged, EncArray, TypeLType, TypeDataSize, EncVarint, DeclaredField, Pow2;
    hide FullType, FullField;
    var f := FieldOf(g);
    NotFull(g);
    SizePositive(g);
    if EncField(f, s, which).Some? {
      if g.rules.Repeated? {
        ArrayShort(g, s.items[..s.count]);
      } else if Present(f, s, which) {
        TaggedShort(g, s.value);
      }
    }
  }

  lemma NotFull(g: GField)
    requires !FullField(g)
    ensures if g.rules.Repeated? then g.maxCount > 0 else !FullType(g.ptype)
  {
    hide FullType;
  }

  lemma SizePositive(g: GField)
    requires FieldMax(g).Some? && (g.rules.Repeated? ==> g.maxCount > 0)
    ensures FieldMax(g).value > 0
  {
    hide TypeMax, EncVarint;
    if g.rules.Repeated? {
      var size := TypeMax(g.ptype).value + |EncVarint(8 * g.tag)|;
      MulLess(1, g.maxCount, size);
    }
  }

  lemma {:induction false} TaggedShort(g: GField, v: Value)
    requires DeclaredField(g) && TypeMax(g.ptype).Some? && ValueIn(g.ptype, v) && EncTagged(FieldOf(g), v).Some?
    requires !FullType(g.ptype)
    ensures |EncTagged(FieldOf(g), v).value| < TypeMax(g.ptype).value + |EncVarint(8 * g.tag)|
    decreases g.ptype, 1, 0
  {
    hide ValueIn, TypeMax, EncValue, TypeLType, TypeDataSize, EncVarint, DeclaredField, FullType;
    SameType(g);
    ValueShort(g.ptype, v);
    TagLength(g.tag, WireType(TypeLType(g.ptype)));
  }

  lemma {:induction false} UnpackedShort(g: GField, vs: seq<Value>)
    requires DeclaredField(g) && TypeMax(g.ptype).Some? && EncUnpacked(FieldOf(g), vs).Some? && !FullType(g.ptype)
    requires forall k :: 0 <= k < |vs| ==> ValueIn(g.ptype, vs[k])
    ensures |EncUnpacked(FieldOf(g), vs).value| + |vs| <= |vs| * (TypeMax(g.ptype).value + |EncVarint(8 * g.tag)|)
    decreases g.ptype, 2, |vs|
  {
    hide ValueIn, TypeMax, EncTagged, FieldOf, EncVarint, DeclaredField, FullType;
    if vs != [] {
      TaggedShort(g, vs[0]);
      UnpackedShort(g, vs[1..]);
      OneMore(|vs| - 1, TypeMax(g.ptype).value + |EncVarint(8 * g.tag)|);
    }
  }

  lemma {:induction false} PackedShort(g: GField, vs: seq<Value>)
    requires DeclaredField(g) && TypeMax(g.ptype).Some? && EncPacked(FieldOf(g), vs).Some? && !FullType(g.ptype)
    requires forall k :: 0 <= k < |vs| ==> ValueIn(g.ptype, vs[k])
    ensures |EncPacked(FieldOf(g), vs).value| + |vs| <= |vs| * TypeMax(g.ptype).value
    decreases g.ptype, 1, |vs|
  {
    hide ValueIn, TypeMax, EncValue, TypeLType, TypeDataSize, DeclaredField, FullType;
    if vs != [] {
      SameType(g);
      ValueShort(g.ptype, vs[0]);
      PackedShort(g, vs[1..]);
      OneMore(|vs| - 1, TypeMax(g.ptype).value);
    }
  }

  lemma {:induction false} ArrayShort(g: GField, vs: seq<Value>)
    requires DeclaredField(g) && g.rules.Repeated? && FieldMax(g).Some? && |vs| <= g.maxCount && !FullField(g)
    requires forall k :: 0 <= k < |vs| ==> ValueIn(g.ptype, vs[k])
    requires EncArray(FieldOf(g), vs).Some?
    ensures |EncArray(FieldOf(g), vs).value| < FieldMax(g).value
    decreases g.ptype, 3, 0
  {
    hide ValueIn, TypeMax, EncPacked, EncUnpacked, TypeLType, TypeDataSize, EncVarint, EncTag, EncString, DeclaredField;
    hide FullType;
    SizePositive(g);
    if vs != [] {
      if TypeLType(g.ptype).Packable() {
        PackedArrayShort(g, vs);
      } else {
        var size := TypeMax(g.ptype).value + |EncVarint(8 * g.tag)|;
        if FullType(g.ptype) {
          UnpackedBound(g, vs);
        } else {
          UnpackedShort(g, vs);
        }
        MulLess(|vs|, g.maxCount, size);
      }
    }
  }

  lemma {:induction false} PackedArrayShort(g: GField, vs: seq<Value>)
    requires DeclaredField(g) && g.rules.Repeated? && FieldMax(g).Some? && 1 <= |vs| <= g.maxCount && !FullField(g)
    requires forall k :: 0 <= k < |vs| ==> ValueIn(g.ptype, vs[k])
    requires TypeLType(g.ptype).Packable() && EncArray(FieldOf(g), vs).Some?
    ensures |EncArray(FieldOf(g), vs).value| < FieldMax(g).value
    decreases g.ptype, 2, 0
  {
    hide ValueIn, TypeMax, EncPacked, EncArray, TypeLType, TypeDataSize, EncVarint, DeclaredField, FullType, FullField;
    NotFullPacked(g);
    PackedEncodes(g, vs);
    var p, t, e := TypeMax(g.ptype).value, |EncVarint(8 * g.tag)|, EncPacked(FieldOf(g), vs).value;
    NumberBound(g.ptype);
    PackedBound(g, vs);
    if !FullType(g.ptype) {
      PackedShort(g, vs);
    }
    PackedSize(g, vs);
    PackedStrict(|vs|, g.maxCount, p, t, |e|);
  }

  lemma NotFullPacked(g: GField)
    requires !FullField(g) && g.rules.Repeated? && TypeLType(g.ptype).Packable() && FieldMax(g).Some?
    ensures TypeMax(g.ptype).Some? && g.maxCount > 0
    ensures
      var p, t := TypeMax(g.ptype).value, |EncVarint(8 * g.tag)|;
      && FieldMax(g).value == g.maxCount * (p + t) + (if g.maxCount == 1 then 1 else 0)
      && (!FullType(g.ptype) || (g.maxCount != 1 && |EncVarint(g.maxCount * p)| != (g.maxCount - 1) * t))
  {
    hide TypeMax, TypeLType, EncVarint, FullType;
  }

  lemma PackedEncodes(g: GField, vs: seq<Value>)
    requires TypeLType(g.ptype).Packable() && 1 <= |vs| <= g.maxCount && EncArray(FieldOf(g), vs).Some?
    ensures EncPacked(FieldOf(g), vs).Some?
  {
    hide EncPacked, TypeLType, TypeDataSize, EncVarint, EncString;
  }

  /** A packed array takes all the bytes counted only if it is full of the longest items, and the length takes as
      many as the tags that are saved. */
  lemma PackedStrict(count: nat, max: nat, p: nat, t: nat, size: nat)
    requires 1 <= count <= max && p <= 10 && t >= 1 && size <= count * p
    requires size < count * p || (max != 1 && |EncVarint(max * p)| != (max - 1) * t)
    ensures t + |EncVarint(size)| + size < max * (p + t) + if max == 1 then 1 else 0
  {
    hide EncVarint;
    SplitSizes(max, p, t);
    MulLess(count, max, p);
    if size < max * p {
      PackedFits(max, max, p, t, max * p);
      VarintLonger(size, max * p);
    } else {
      PackedFits(max, max, p, t, size);
    }
  }

  // ----- Messages that are not full -----

  lemma {:induction false} UnionShort(gs: seq<GField>, slots: seq<Slot>, which: map<nat, nat>, group: nat, max: nat)
    requires FieldsIn(gs, slots, which) && DeclaredMember(Union(group, gs)) && UnionMax(gs).Some?
    requires UnionMax(gs).value <= max && max > 0 && !HasFull(gs, Some(max))
    ensures Sizes(FieldsTable(gs), slots, which) < max
    decreases gs
  {
    hide SlotIn, EncField, FieldMax, DeclaredField, FieldOf, FullField;
    if gs == [] {
      NoSizes(slots, which);
    } else {
      FieldBound(gs[0], slots[0], which);
      if group in which && which[group] == gs[0].tag {
        UnionAbsent(gs[1..], slots[1..], which, group);
        if FieldMax(gs[0]) == Some(max) {
          FieldShort(gs[0], slots[0], which);
        }
      } else {
        assert !Present(FieldOf(gs[0]), slots[0], which) by { RulesOf(gs[0]); }
        UnionShort(gs[1..], slots[1..], which, group, max);
      }
    }
  }

  lemma {:induction false} MemberShort(m: Member, slots: seq<Slot>, which: map<nat, nat>)
    requires DeclaredMember(m) && MemberIn(m, slots, which) && MemberMax(m).Some? && !FullMember(m)
    ensures Sizes(MemberTable(m), slots, which) < MemberMax(m).value
    decreases m
  {
    hide SlotIn, EncField, FieldMax, DeclaredField, FieldOf, FullField, HasFull;
    match m
    case Plain(f) =>
      FieldShort(f, slots[0], which);
    case Union(group, gs) =>
      SizePositive(gs[0]);
      UnionShort(gs, slots, which, group, UnionMax(gs).value);
  }

  lemma {:induction false} MembersShort(members: seq<Member>, slots: seq<Slot>, which: map<nat, nat>)
    requires Declared(members) && MessageIn(members, slots, which) && MessageMax(members).Some? && !Full(members)
    ensures |slots| == |Table(members)| && Sizes(Table(members), slots, which) < MessageMax(members).value
    decreases members, 1
  {
    hide DeclaredMember, MemberIn, MemberTable, MemberMax, Sizes, FullMember;
    var first := MemberTable(members[0]);
    var k := |first|;
    SizesAppend(first, Table(members[1..]), slots[..k], slots[k..], which);
    assert slots[..k] + slots[k..] == slots;
    MembersBound(members[1..], slots[k..], which);
    if FullMember(members[0]) {
      MemberBound(members[0], slots[..k], which);
      MembersShort(members[1..], slots[k..], which);
    } else {
      MemberShort(members[0], slots[..k], which);
    }
  }

  lemma {:induction false} MessageShort(members: seq<Member>, m: Message)
    requires Declared(members) && MessageIn(members, m.slots, m.which) && MessageMax(members).Some? && !Full(members)
    requires EncMessage(Table(members), m).Some?
    ensures |EncMessage(Table(members), m).value| < MessageMax(members).value
    decreases members, 2
  {
    hide Declared, MessageIn, MessageMax, Table, EncFrom, Sizes, Full;
    var fields := Table(members);
    MembersShort(members, m.slots, m.which);
    EncFromSize(fields, m, 0);
    assert fields[0..] == fields && m.slots[0..] == m.slots;
  }

  /** Some message of declared values takes exactly the size the generator computes if and only if nothing in its type,
      at any level, counts bytes that are never written; otherwise every message is shorter. */
  lemma ReachedExactly(members: seq<Member>)
    requires Declared(members) && Separate(members) && MessageMax(members).Some?
    ensures Full(members) <==>
      exists m: Message ::
        && MessageIn(members, m.slots, m.which) && EncMessage(Table(members), m).Some?
        && |EncMessage(Table(members), m).value| == MessageMax(members).value
  {
    hide Declared, Separate, MessageMax, Full, MessageIn, EncMessage, Table, LongestSlots, LongestWhich;
    if Full(members) {
      MessageReached(members);
      var m := Message(LongestSlots(members), LongestWhich(members));
      assert EncMessage(Table(members), m).Some?;
    } else {
      forall m: Message | MessageIn(members, m.slots, m.which) && EncMessage(Table(members), m).Some?
        ensures |EncMessage(Table(members), m).value| != MessageMax(members).value
      {
        MessageShort(members, m);
      }
    }
  }
}
