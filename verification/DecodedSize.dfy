/** Messages that were decoded from any input, encoded again: when the generator's size is enough for them. */
module DecodedSize {
  import opened Bytes
  import opened Powers
  import opened PbWire
  import opened PbTypes
  import opened PbEncode
  import opened PbDecode
  import PbRoundTrip
  import PbSound
  import opened GeneratorSize

  // pb_dec_varint (lib/nanopb-0.3.9.3/pb_decode.c) does not check that a bool is zero or one, nor that an enum
  // has a declared value, and Message.encoded_size (nanopb_generator.py) counts on both.

  /** Whatever was decoded, if its bools and enums take no more bytes than those the generator has
      counted on, it encodes again, to at most the size the generator has computed. */
  lemma DecodedFits(declared: seq<Member>, members: seq<Member>, m: Message, s: seq<byte>)
    requires Reordered(declared, members) && Declared(members) && MessageMax(declared).Some?
    requires ValidDescriptor(Table(members)) && ShapedMessage(Table(members), m)
    requires DecMessage(Table(members), m, s).Some?
    requires
      var r := DecMessage(Table(members), m, s).value;
      MessageIn(members, r.slots, r.which)
    ensures
      var e := EncMessage(Table(members), DecMessage(Table(members), m, s).value);
      e.Some? && |e.value| <= MessageMax(declared).value
  {
    hide Reordered, Declared, MessageMax, MessageIn, Table, ValidDescriptor, ShapedMessage, DecMessage, EncMessage,
      InRangeMessage;
    PbSound.AnyDecodeInRange(Table(members), m, s);
    GeneratorBound(declared, members, DecMessage(Table(members), m, s).value);
  }

  /** A message with one bool. */
  function OneBool(): seq<Member> { [Plain(GField(1, Required, Scalar(TBool, 1), 0))] }

  /** The table with one bool. */
  function OneBoolFields(): seq<Field> { [Field(1, Required, Varint, 0, 0, 1, 0, None)] }

  lemma OneBoolTable()
    ensures Table(OneBool()) == OneBoolFields()
    ensures MessageMax(OneBool()) == Some(2)
  {
    assert OneBool()[1..] == [];
    assert EncVarint(8) == [8];
  }

  lemma AllOnes()
    ensures EncVarint(B32 - 1) == [0xFF, 0xFF, 0xFF, 0xFF, 0x0F]
  {
    assert EncVarint(0xF) == [0x0F];
    assert EncVarint(0x7FF) == [0xFF, 0x0F];
    assert EncVarint(0x3_FFFF) == [0xFF, 0xFF, 0x0F];
    assert EncVarint(0x1FF_FFFF) == [0xFF, 0xFF, 0xFF, 0x0F];
  }

  /** The number 2^32 - 1 is taken for a bool of -1. */
  lemma MinusOne(dest: Value)
    ensures DecValue(Varint, 1, false, dest, [0xFF, 0xFF, 0xFF, 0xFF, 0x0F]) == Some((Num(-1), 5))
  {
    hide EncVarint, DecVarint64, Pow2;
    AllOnes();
    Pow2Large();
    Varint64RoundTrip(B32 - 1, []);
    NoBytes(EncVarint(B32 - 1));
    SignedRoundTrip(-1, 32);
    assert ToSigned(B32 - 1, 32) == -1;
  }

  /** Otherwise it may not be enough: a bool that is sent as 2^32 - 1 is encoded again in ten bytes, where the
      generator counts one. */
  lemma BoolTooLong(m: Message)
    requires ShapedMessage(Table(OneBool()), m)
    ensures
      var r := DecMessage(Table(OneBool()), m, [8, 0xFF, 0xFF, 0xFF, 0xFF, 0x0F]);
      && r.Some? && !MessageIn(OneBool(), r.value.slots, r.value.which)
      && EncMessage(Table(OneBool()), r.value).Some?
      && |EncMessage(Table(OneBool()), r.value).value| == 11 && MessageMax(OneBool()) == Some(2)
  {
    OneBoolTable();
    BoolDecoded(m);
    BoolEncoded(DecMessage(Table(OneBool()), m, [8, 0xFF, 0xFF, 0xFF, 0xFF, 0x0F]).value);
  }

  lemma BoolDecoded(m: Message)
    requires ShapedMessage(Table(OneBool()), m)
    ensures
      var r := DecMessage(Table(OneBool()), m, [8, 0xFF, 0xFF, 0xFF, 0xFF, 0x0F]);
      r.Some? && |r.value.slots| == 1 && r.value.slots[0].Single? && r.value.slots[0].value == Num(-1)
  {
    OneBoolTable();
    hide Defaults, DecNoInit, Table;
    BoolStart(m);
    BoolLoop(Defaults(Table(OneBool()), m));
  }

  lemma BoolStart(m: Message)
    requires ShapedMessage(OneBoolFields(), m)
    ensures |Defaults(OneBoolFields(), m).slots| == 1 && Defaults(OneBoolFields(), m).slots[0].Single?
  {
    DefaultSlotsAt(OneBoolFields(), m.slots, 0);
    assert ShapedSlot(OneBoolFields()[0], m.slots[0]);
  }

  lemma BoolLoop(d: Message)
    requires |d.slots| == 1 && d.slots[0].Single?
    ensures
      var r := DecNoInit(OneBoolFields(), d, [8, 0xFF, 0xFF, 0xFF, 0xFF, 0x0F]);
      r.Some? && r.value.slots == [Single(d.slots[0].has, Num(-1))]
  {
    hide DecValue, EncVarint, DecLoop, DecNum, DecTag;
    var fields, s := OneBoolFields(), [0xFF as byte, 0xFF, 0xFF, 0xFF, 0x0F];
    MinusOne(d.slots[0].value);
    assert DecSlot(fields[0], WT_VARINT, d.slots[0], s) == Some((Single(d.slots[0].has, Num(-1)), 5));
    hide DecSlot;
    EightFirst();
    assert EncTag(WT_VARINT, 1) == [8];
    assert [8 as byte] + s == [8, 0xFF, 0xFF, 0xFF, 0xFF, 0x0F];
    PbRoundTrip.TaggedStep(fields, 0, WT_VARINT, Progress(d, {}), s);
    assert s[5..] == [];
    PbRoundTrip.LoopEnd(fields, Stored(fields[0], 0, Progress(d, {}), Single(d.slots[0].has, Num(-1))));
  }

  lemma EightFirst()
    ensures EncVarint(8) == [8]
  {
  }

  lemma BoolEncoded(r: Message)
    requires |r.slots| == 1 && r.slots[0].Single? && r.slots[0].value == Num(-1)
    ensures !MessageIn(OneBool(), r.slots, r.which)
    ensures EncMessage(Table(OneBool()), r).Some? && |EncMessage(Table(OneBool()), r).value| == 11
  {
    OneBoolTable();
    var fields := OneBoolFields();
    assert r.slots[..1][0] == r.slots[0];
    EightFirst();
    TenBytes();
    hide EncVarint;
    var e := EncTagged(fields[0], Num(-1)).value;
    assert EncFrom(fields, r, 1) == Some([]);
    assert EncFrom(fields, r, 0) == Some(e + []);
  }

  /** Minus one takes ten bytes. */
  lemma TenBytes()
    ensures |EncVarint(ToUnsigned(-1))| == 10
  {
    hide EncVarint, Pow2;
    Pow2Large();
    Varint64RoundTrip(ToUnsigned(-1), []);
    assert Pow2(7 * 9) == B63;
    VarintAtLeast(ToUnsigned(-1), 9);
  }
}
