/** The messages of src/messages/alarmclock.proto and the sizes in their generated header. */
module AlarmClock {
  import opened PbWire
  import opened PbTypes
  import opened GeneratorSize
  import opened SizeReached

  /** Required uint32 fields numbered from 1 to k: TimeMsg and NeoPixelMsg.Color have three. */
  function Numbers(k: nat): seq<Member> {
    if k == 0 then [] else Numbers(k - 1) + [Plain(GField(k, Required, Scalar(TUInt32, 4), 0))]
  }

  function AlarmMsg(): seq<Member> { Numbers(3) + [Plain(GField(4, Required, Scalar(TBool, 1), 0))] }

  /** The option for its string is max_size:256. */
  function SpeechSynthMsg(): seq<Member> { [] + [Plain(GField(1, Required, String(256), 0))] }

  function Colors(): seq<Member> {
    [] + [Plain(GField(1, Required, MessageType(Numbers(3)), 0))]
    + [Plain(GField(2, Optional, MessageType(Numbers(3)), 0))]
  }

  function NeoPixelMsg(): seq<Member> {
    Colors() + [Plain(GField(3, Required, Scalar(TUInt32, 4), 0))]
    + [Plain(GField(4, Required, Enum([1, 2, 3, 4, 5, 6]), 0))] + [Plain(GField(5, Optional, Scalar(TUInt32, 4), 0))]
  }

  lemma FieldSize(tag: nat, rules: HType, t: PType, n: nat)
    requires 1 <= tag < 16 && !rules.Repeated? && TypeMax(t) == Some(n)
    ensures MemberMax(Plain(GField(tag, rules, t, 0))) == Some(n + 1)
    ensures FullMember(Plain(GField(tag, rules, t, 0))) <==> FullType(t)
  {
    assert |EncVarint(8 * tag)| == 1;
    hide EncVarint, TypeMax, FullType;
    assert FieldMax(GField(tag, rules, t, 0)) == Plus(TypeMax(t), VarintMax(8 * tag));
  }

  lemma NothingDeclared()
    ensures MessageMax([]) == Some(0) && Full([])
  {
  }

  lemma {:induction false} OneMoreField(a: seq<Member>, m: Member, k: nat, n: nat)
    requires MessageMax(a) == Some(k) && MemberMax(m) == Some(n)
    ensures MessageMax(a + [m]) == Some(k + n)
    ensures Full(a + [m]) <==> Full(a) && FullMember(m)
    decreases |a|
  {
    hide MemberMax, FullMember;
    NothingDeclared();
    if a == [] {
      assert a + [m] == [m] && [m][1..] == [];
    } else {
      assert (a + [m])[1..] == a[1..] + [m];
      OneMoreField(a[1..], m, MessageMax(a[1..]).value, n);
    }
  }

  lemma UInt32Size()
    ensures TypeMax(Scalar(TUInt32, 4)) == Some(5) && FullType(Scalar(TUInt32, 4))
  {
  }

  lemma {:induction false} NumbersSize(k: nat)
    requires k < 16
    ensures MessageMax(Numbers(k)) == Some(6 * k) && Full(Numbers(k))
    decreases k
  {
    hide MemberMax, FullMember, TypeMax, FullType, MessageMax, Full;
    if k == 0 {
      NothingDeclared();
    } else {
      NumbersSize(k - 1);
      UInt32Size();
      FieldSize(k, Required, Scalar(TUInt32, 4), 5);
      OneMoreField(Numbers(k - 1), Plain(GField(k, Required, Scalar(TUInt32, 4), 0)), 6 * (k - 1), 6);
    }
  }

  /** TimeMsg and NeoPixelMsg.Color: 18. */
  lemma TimeSize()
    ensures MessageMax(Numbers(3)) == Some(18) && Full(Numbers(3))
  {
    hide Numbers, MessageMax, Full;
    NumbersSize(3);
  }

  lemma AlarmSize()
    ensures MessageMax(AlarmMsg()) == Some(20) && Full(AlarmMsg())
  {
    hide MemberMax, FullMember, MessageMax, Full, Numbers;
    TimeSize();
    assert TypeMax(Scalar(TBool, 1)) == Some(1) && FullType(Scalar(TBool, 1));
    FieldSize(4, Required, Scalar(TBool, 1), 1);
    OneMoreField(Numbers(3), Plain(GField(4, Required, Scalar(TBool, 1), 0)), 18, 2);
  }

  /** A string of 256 bytes with its terminator is counted as one of 256: the size is never reached. */
  lemma SpeechSynthSize()
    ensures MessageMax(SpeechSynthMsg()) == Some(259) && !Full(SpeechSynthMsg())
  {
    assert |EncVarint(256)| == 2;
    hide MemberMax, FullMember, MessageMax, Full, EncVarint;
    assert TypeMax(String(256)) == Some(258) && !FullType(String(256));
    FieldSize(1, Required, String(256), 258);
    NothingDeclared();
    OneMoreField([], Plain(GField(1, Required, String(256), 0)), 0, 259);
  }

  lemma {:induction false} SmallEnum(values: seq<int>)
    requires values != [] && forall i :: 0 <= i < |values| ==> 0 <= values[i] < 128
    ensures EnumMax(values) == Some(1)
    decreases |values|
  {
    assert |EncVarint(values[|values| - 1])| == 1;
    hide EncVarint;
    if |values| > 1 {
      SmallEnum(values[..|values| - 1]);
    }
  }

  lemma ColorsSize()
    ensures MessageMax(Colors()) == Some(40) && Full(Colors())
  {
    assert |EncVarint(18)| == 1;
    hide MemberMax, FullMember, MessageMax, Full, Numbers, EncVarint;
    TimeSize();
    assert TypeMax(MessageType(Numbers(3))) == Some(19) && FullType(MessageType(Numbers(3)));
    FieldSize(1, Required, MessageType(Numbers(3)), 19);
    FieldSize(2, Optional, MessageType(Numbers(3)), 19);
    var t := MessageType(Numbers(3));
    var a, b := Plain(GField(1, Required, t, 0)), Plain(GField(2, Optional, t, 0));
    NothingDeclared();
    OneMoreField([], a, 0, 20);
    OneMoreField([] + [a], b, 20, 20);
  }

  /** NeoPixelMsg: 54, with a length prefix of one byte for each of its two colors. */
  lemma NeoPixelSize()
    ensures MessageMax(NeoPixelMsg()) == Some(54) && Full(NeoPixelMsg())
  {
    hide MemberMax, FullMember, MessageMax, Full, Colors, EnumMax;
    var patterns: seq<int> := [1, 2, 3, 4, 5, 6];
    ColorsSize();
    UInt32Size();
    SmallEnum(patterns);
    assert TypeMax(Enum(patterns)) == Some(1) && FullType(Enum(patterns));
    FieldSize(3, Required, Scalar(TUInt32, 4), 5);
    FieldSize(4, Required, Enum(patterns), 1);
    FieldSize(5, Optional, Scalar(TUInt32, 4), 5);
    var c, d := Plain(GField(3, Required, Scalar(TUInt32, 4), 0)), Plain(GField(4, Required, Enum(patterns), 0));
    OneMoreField(Colors(), c, 40, 6);
    OneMoreField(Colors() + [c], d, 46, 2);
    OneMoreField(Colors() + [c] + [d], Plain(GField(5, Optional, Scalar(TUInt32, 4), 0)), 48, 6);
  }
}
