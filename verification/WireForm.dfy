/** What numbers, strings and fields are on the wire of nanopb, in literal numbers. */
module WireForm {
  import opened Bytes
  import opened Powers
  import opened PbWire
  import opened PbTypes
  import opened PbEncode
  import opened PbDecode

  // The encoder and the decoder share their constants, so a round trip does not see them. The numbers here are
  // those of the Protocol Buffers Encoding specification and of the range checks of pb_decode.c.

  // ----- Varints, byte by byte -----

  /** The i-th byte of a varint holds seven bits of the number, and says whether more follow. */
  lemma {:induction false} VarintByte(n: nat, i: nat)
    requires i < |EncVarint(n)|
    ensures
      var rest := n / Pow2(7 * i);
      && EncVarint(n)[i] as nat == (if rest < 128 then rest else 128 + rest % 128)
      && (rest < 128 <==> i + 1 == |EncVarint(n)|)
    decreases i
  {
    hide Pow2;
    OneBit();
    VarintFirst(n);
    if i > 0 {
      hide EncVarint;
      VarintByte(n / 128, i - 1);
      SevenBits(n, i);
    }
  }

  lemma VarintFirst(n: nat)
    ensures n < 128 ==> EncVarint(n) == [n as byte]
    ensures n >= 128 ==> EncVarint(n) == [(128 + n % 128) as byte] + EncVarint(n / 128)
  {
  }

  lemma SevenBits(n: nat, i: nat)
    requires i > 0
    ensures n / 128 / Pow2(7 * (i - 1)) == n / Pow2(7 * i)
  {
    hide Pow2;
    Pow2Add(7, 7 * (i - 1));
    Pow2Large();
    DivTwice(n, 128, Pow2(7 * (i - 1)));
  }

  lemma DivTwice(n: nat, a: nat, b: nat)
    requires a > 0 && b > 0
    ensures a * b > 0 && n / a / b == n / (a * b)
  {
    var q := n / a;
    DivMod(n, a);
    DivMod(q, b);
    DivParts(n, a, b, n % a, q / b, q % b);
  }

  lemma DivMod(n: nat, a: nat)
    requires a > 0
    ensures n == n / a * a + n % a && n % a < a
  {
  }

  lemma DivParts(n: nat, a: nat, b: nat, r: nat, t: nat, u: nat)
    requires r < a && u < b && n == (t * b + u) * a + r
    ensures a * b > 0 && n / (a * b) == t
  {
    MulLess(u + 1, b, a);
    Distribute(t, b, u, a);
    Remainder(u, a, b, r);
    ModUnique(n, t, u * a + r, a * b);
  }

  lemma Remainder(u: nat, a: nat, b: nat, r: nat)
    requires r < a && (u + 1) * a <= b * a
    ensures u * a + r < a * b
  {
  }

  // ----- What the encoder writes -----

  /** The tag of a field: its number, and in the low three bits how its value ends. */
  lemma TagForm(f: Field, v: Value)
    requires EncTagged(f, v).Some?
    ensures
      var wire :=
        match f.ltype
        case Varint | UVarint | SVarint => 0
        case Fixed64 => 1
        case Fixed32 => 5
        case _ => 2;
      EncTagged(f, v).value == EncVarint(8 * f.tag + wire) + EncValue(f.ltype, f.dataSize, v).value
  {
    hide EncVarint, EncValue;
  }

  /** A number: as a varint, negative ones in 64 bits or in zigzag, or in four or eight bytes with the lowest
      first. Only a size that no C integer has is refused. */
  lemma NumberForm(lt: LType, dataSize: nat, n: int)
    requires lt.Packable() && -0x8000_0000_0000_0000 <= n < 0x1_0000_0000_0000_0000
    requires lt.Varint? || lt.SVarint? ==> n < 0x8000_0000_0000_0000
    requires lt.UVarint? || lt.Fixed32? || lt.Fixed64? ==> n >= 0
    ensures EncValue(lt, dataSize, Num(n)) ==
      if lt.Fixed32? then Some(LowBytes(n, 4))
      else if lt.Fixed64? then Some(LowBytes(n, 8))
      else if dataSize != 1 && dataSize != 2 && dataSize != 4 && dataSize != 8 then None
      else
        Some(EncVarint(
          if lt.SVarint? then (if n >= 0 then 2 * n else -2 * n - 1)
          else if n >= 0 then n
          else n + 0x1_0000_0000_0000_0000))
  {
    hide EncVarint;
    if lt.Fixed32? {
      FixedForm(n, 4);
    } else if lt.Fixed64? {
      FixedForm(n, 8);
    }
  }

  /** The k low bytes of n, the lowest first. */
  function LowBytes(n: nat, k: nat): (x: seq<byte>)
    ensures |x| == k && forall i :: 0 <= i < k ==> x[i] as nat == n / Pow2(8 * i) % 256
  {
    seq(k, i requires 0 <= i < k => (n / Pow2(8 * i) % 256) as byte)
  }

  lemma FixedForm(n: nat, k: nat)
    ensures EncFixed(n, k) == LowBytes(n, k)
  {
    forall i | 0 <= i < k ensures EncFixed(n, k)[i] == LowBytes(n, k)[i] {
      FixedByte(n, k, i);
    }
  }

  lemma {:induction false} FixedByte(n: nat, k: nat, i: nat)
    requires i < k
    ensures EncFixed(n, k)[i] as nat == n / Pow2(8 * i) % 256
    decreases i
  {
    hide Pow2;
    OneBit();
    if i > 0 {
      FixedByte(n / 256, k - 1, i - 1);
      Pow2Add(8, 8 * (i - 1));
      Pow2Large();
      DivTwice(n, 256, Pow2(8 * (i - 1)));
    }
  }

  /** A byte string: its length and the bytes. What does not fit its array is refused, two bytes of which hold
      the length of a bytes field. */
  lemma StringForm(lt: LType, dataSize: nat, b: seq<byte>)
    requires lt.BytesArray? || lt.FixedLengthBytes? || lt.CharArray?
    ensures lt.BytesArray? ==>
      EncValue(lt, dataSize, Blob(b)) == if |b| + 2 <= dataSize then Some(EncVarint(|b|) + b) else None
    ensures lt.FixedLengthBytes? ==>
      EncValue(lt, dataSize, Blob(b)) == if |b| == dataSize then Some(EncVarint(|b|) + b) else None
    ensures lt.CharArray? ==> exists k ::
      && 0 <= k <= |b| && k <= dataSize && ZeroFree(b[..k]) && (k == |b| || k == dataSize || b[k] == 0)
      && EncValue(lt, dataSize, Blob(b)) == Some(EncVarint(k) + b[..k])
  {
    hide EncVarint, CString;
    if lt.CharArray? {
      var k := Terminator(b, dataSize);
      assert EncValue(lt, dataSize, Blob(b)) == Some(EncVarint(k) + b[..k]);
    }
  }

  lemma {:induction false} Terminator(b: seq<byte>, max: nat) returns (k: nat)
    ensures k <= |b| && k <= max && CString(b, max) == b[..k] && ZeroFree(b[..k])
    ensures k == |b| || k == max || b[k] == 0
    decreases |b|
  {
    if b == [] || max == 0 || b[0] == 0 {
      k := 0;
    } else {
      k := Terminator(b[1..], max - 1);
      k := k + 1;
      assert b[..k] == [b[0]] + b[1..][..k - 1];
    }
  }

  /** A submessage: the length of its encoding, and the encoding; it is refused if the message is. */
  lemma SubmessageForm(fields: seq<Field>, dataSize: nat, m: Message)
    ensures EncValue(Submessage(fields), dataSize, Msg(m)).Some? <==> EncMessage(fields, m).Some?
    ensures EncMessage(fields, m).Some? ==>
      var e := EncMessage(fields, m).value;
      EncValue(Submessage(fields), dataSize, Msg(m)).value == EncVarint(|e|) + e
  {
    hide EncVarint, EncFrom;
  }

  /** An array of numbers: one tag of wire type 2, the length of all items, and the items. */
  lemma PackedForm(f: Field, items: seq<Value>)
    requires f.ltype.Packable() && items != []
    ensures EncArray(f, items).Some? <==> |items| <= f.arraySize && EncPacked(f, items).Some?
    ensures EncArray(f, items).Some? ==>
      var p := EncPacked(f, items).value;
      EncArray(f, items).value == EncVarint(8 * f.tag + 2) + (EncVarint(|p|) + p)
  {
    hide EncVarint, EncPacked;
  }

  /** Any other array: each item with a tag of its own. */
  lemma UnpackedForm(f: Field, items: seq<Value>)
    requires !f.ltype.Packable() && items != []
    ensures EncArray(f, items) == if |items| <= f.arraySize then EncUnpacked(f, items) else None
  {
    hide EncUnpacked;
  }

  lemma OneItem(f: Field, v: Value)
    ensures EncPacked(f, [v]) == EncValue(f.ltype, f.dataSize, v) && EncUnpacked(f, [v]) == EncTagged(f, v)
  {
    hide EncValue, EncTag;
    assert [v][1..] == [];
    NoItems(f);
    if EncValue(f.ltype, f.dataSize, v).Some? {
      NoBytes(EncValue(f.ltype, f.dataSize, v).value);
      NoBytes(EncTagged(f, v).value);
    }
  }

  /** The items come in order. */
  lemma {:induction false} ItemsInOrder(f: Field, a: seq<Value>, b: seq<Value>)
    ensures EncPacked(f, a + b) == Then(EncPacked(f, a), EncPacked(f, b))
    ensures EncUnpacked(f, a + b) == Then(EncUnpacked(f, a), EncUnpacked(f, b))
    decreases |a|
  {
    hide EncValue, EncTagged, Then;
    if a == [] {
      assert a + b == b;
      NothingThen(EncPacked(f, b));
      NothingThen(EncUnpacked(f, b));
    } else {
      assert (a + b)[1..] == a[1..] + b;
      ItemsInOrder(f, a[1..], b);
      ThenAssoc(EncValue(f.ltype, f.dataSize, a[0]), EncPacked(f, a[1..]), EncPacked(f, b));
      ThenAssoc(EncTagged(f, a[0]), EncUnpacked(f, a[1..]), EncUnpacked(f, b));
    }
  }

  /** The fields come in the order of the table. */
  lemma {:induction false} FieldsInOrder(a: seq<Field>, b: seq<Field>, s: seq<Slot>, t: seq<Slot>, which: map<nat, nat>)
    requires |s| == |a| && |t| == |b|
    ensures EncMessage(a + b, Message(s + t, which)) ==
      Then(EncMessage(a, Message(s, which)), EncMessage(b, Message(t, which)))
  {
    FieldsFrom(a, b, s, t, which, 0);
  }

  lemma {:induction false} FieldsFrom(a: seq<Field>, b: seq<Field>, s: seq<Slot>, t: seq<Slot>, which: map<nat, nat>,
    i: nat)
    requires |s| == |a| && |t| == |b| && i <= |a|
    ensures EncFrom(a + b, Message(s + t, which), i) ==
      Then(EncFrom(a, Message(s, which), i), EncMessage(b, Message(t, which)))
    decreases |a| - i
  {
    hide EncField, Then;
    if i == |a| {
      FieldsShifted(a, b, s, t, which, 0);
      FieldsEnd(a, Message(s, which));
      NothingThen(EncMessage(b, Message(t, which)));
    } else {
      FieldsFrom(a, b, s, t, which, i + 1);
      ThenAssoc(EncField(a[i], s[i], which), EncFrom(a, Message(s, which), i + 1), EncMessage(b, Message(t, which)));
    }
  }

  lemma {:induction false} FieldsShifted(a: seq<Field>, b: seq<Field>, s: seq<Slot>, t: seq<Slot>,
    which: map<nat, nat>, i: nat)
    requires |s| == |a| && |t| == |b| && i <= |b|
    ensures EncFrom(a + b, Message(s + t, which), |a| + i) == EncFrom(b, Message(t, which), i)
    decreases |b| - i
  {
    hide EncField, Then;
    if i < |b| {
      FieldsShifted(a, b, s, t, which, i + 1);
    }
  }

  lemma OneField(f: Field, s: Slot, which: map<nat, nat>)
    ensures EncMessage([f], Message([s], which)) == EncField(f, s, which)
  {
    hide EncField;
    FieldsEnd([f], Message([s], which));
    NothingThen(EncField(f, s, which));
  }

  /** AVRDoubleMessage of lib/nanopb-0.3.9.3/examples/using_double_on_avr/doubleproto.proto: a fixed64 numbered 1
      begins with the byte 0x09. */
  lemma DoubleField(n: nat)
    requires n < B64
    ensures
      var f := Field(1, Required, Fixed64, 0, 0, 8, 0, None);
      EncTagged(f, Num(n)) == Some([0x09] + LowBytes(n, 8))
  {
    hide EncVarint, LowBytes, EncFixed;
    var f := Field(1, Required, Fixed64, 0, 0, 8, 0, None);
    NumberForm(f.ltype, 8, n);
    TagForm(f, Num(n));
    VarintFirst(9);
  }
}
