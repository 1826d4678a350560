/** The message type of src/messages/packetserial.proto with the options of packetserial.options: the table
    and the size nanopb's generator makes of it. */
module PacketOptions {
  import opened PbWire
  import opened PbTypes
  import opened GeneratorSize
  import Packets

  /** Packet in packetserial.proto, with chunks of c bytes: data has max_size c + 1, and the
      sequence number and the crc have int_size 8. */
  function PacketMembers(c: nat): seq<Member> {
    [Plain(GField(1, Required, Bytes(c + 1), 0)),
     Plain(GField(2, Required, Scalar(TUInt32, 1), 0)),
     Plain(GField(3, Required, Scalar(TUInt32, 1), 0)),
     Plain(GField(4, Required, Enum([0, 1, 2, 3]), 0))]
  }

  lemma PacketTable(c: nat)
    ensures Table(PacketMembers(c)) == Packets.PacketFields(c)
  {
    var ms, fields := PacketMembers(c), Packets.PacketFields(c);
    var values: seq<int> := [0, 1, 2, 3];
    assert !HasNegative(values);
    assert FieldOf(ms[0].field) == fields[0] && FieldOf(ms[1].field) == fields[1];
    assert FieldOf(ms[2].field) == fields[2] && FieldOf(ms[3].field) == fields[3];
    hide FieldOf;
    assert ms[1..] == [ms[1], ms[2], ms[3]] && ms[1..][1..] == [ms[2], ms[3]] && ms[1..][1..][1..] == [ms[3]];
    assert Table([ms[3]]) == [fields[3]];
    assert Table([ms[2], ms[3]]) == [fields[2]] + Table([ms[3]]);
    assert Table([ms[1], ms[2], ms[3]]) == [fields[1]] + Table([ms[2], ms[3]]);
    assert Table(ms) == [fields[0]] + Table([ms[1], ms[2], ms[3]]);
  }

  lemma FlagSize()
    ensures EnumMax([0, 1, 2, 3]) == Some(1)
  {
    var v: seq<int> := [0, 1, 2, 3];
    assert VarintMax(0) == VarintMax(1) == VarintMax(2) == VarintMax(3) == Some(1);
    hide VarintMax;
    assert EnumMax([0]) == Some(1);
    assert v[..2][..1] == [0] && v[..2] == [0, 1] && EnumMax(v[..2]) == Some(1);
    assert v[..3][..2] == v[..2] && EnumMax(v[..3]) == Some(1);
  }

  /** Packet_size for chunks of 15 bytes, as the generator computes it: 32. */
  lemma PacketSize()
    ensures MessageMax(PacketMembers(15)) == Some(32)
  {
    var ms := PacketMembers(15);
    assert EncVarint(16) == [16] && EncVarint(8) == [8] && EncVarint(24) == [24] && EncVarint(32) == [32];
    assert EnumMax([0, 1, 2, 3]) == Some(1) by { FlagSize(); }
    assert ms[1..] == [ms[1], ms[2], ms[3]] && ms[1..][1..] == [ms[2], ms[3]] && ms[1..][1..][1..] == [ms[3]];
    assert FieldMax(ms[0].field) == Some(18) && FieldMax(ms[1].field) == Some(6);
    assert FieldMax(ms[2].field) == Some(6) && FieldMax(ms[3].field) == Some(2);
    assert MessageMax([ms[3]]) == Some(2);
    assert MessageMax([ms[2], ms[3]]) == Some(8);
    assert MessageMax([ms[1], ms[2], ms[3]]) == Some(14);
  }

  /** The buffers of send and process hold the largest frame. */
  lemma PacketSizeSuffices()
    ensures MessageMax(PacketMembers(15)).Some? && Packets.FramesFit(15, MessageMax(PacketMembers(15)).value + 1)
  {
    PacketSize();
    Packets.FifteenFits();
  }
}
