/** What pb_decode_noinit does with fields it does not know, and which fields it insists on. */
module PbUnknown {
  import opened Bytes
  import opened Powers
  import opened PbWire
  import opened PbTypes
  import opened PbCommon
  import opened PbDecode

  // ----- Decoding looks at no byte beyond those it takes -----

  /** s and t start with the same n bytes. */
  ghost predicate Agree(s: seq<byte>, t: seq<byte>, n: nat) {
    n <= |s| && n <= |t| && forall i :: 0 <= i < n ==> s[i] == t[i]
  }

  lemma AgreeSlice(s: seq<byte>, t: seq<byte>, n: nat, i: nat)
    requires Agree(s, t, n) && i <= n
    ensures Agree(s[i..], t[i..], n - i) && s[..i] == t[..i] && s[i..n] == t[i..n]
  {
  }

  lemma {:induction false} SpanLocal(s: seq<byte>, t: seq<byte>)
    requires VarintSpan(s).Some? && Agree(s, t, VarintSpan(s).value)
    ensures VarintSpan(t) == VarintSpan(s)
    decreases |s|
  {
    if s[0] >= 128 {
      SpanLocal(s[1..], t[1..]);
    }
  }

  lemma {:induction false} Loop32Local(s: seq<byte>, bitpos: nat, result: nat, t: seq<byte>)
    requires Varint32Loop(s, bitpos, result).Some? && Agree(s, t, Varint32Loop(s, bitpos, result).value.1)
    ensures Varint32Loop(t, bitpos, result) == Varint32Loop(s, bitpos, result)
    decreases |s|
  {
    hide BitOr, Pow2;
    if s[0] >= 128 {
      var result' := if bitpos >= 32 then result else BitOr(result, s[0] as nat % 128 * Pow2(bitpos) % B32);
      Loop32Local(s[1..], (bitpos + 7) % FAST8, result', t[1..]);
    }
  }

  lemma Varint32Local(s: seq<byte>, t: seq<byte>)
    requires DecVarint32(s).Some? && Agree(s, t, DecVarint32(s).value.1)
    ensures DecVarint32(t) == DecVarint32(s)
  {
    hide Varint32Loop;
    if s[0] >= 128 {
      Loop32Local(s[1..], 7, (s[0] % 128) as nat, t[1..]);
    }
  }

  lemma Varint64Local(s: seq<byte>, t: seq<byte>)
    requires DecVarint64(s).Some? && Agree(s, t, DecVarint64(s).value.1)
    ensures DecVarint64(t) == DecVarint64(s)
  {
    hide VarintSpan, VarintValue;
    SpanLocal(s, t);
    AgreeSlice(s, t, DecVarint64(s).value.1, DecVarint64(s).value.1);
  }

  lemma DelimitedLocal(s: seq<byte>, t: seq<byte>)
    requires DelimitedEnd(s).Some? && Agree(s, t, DelimitedEnd(s).value)
    ensures DelimitedEnd(t) == DelimitedEnd(s) && Delimited(t) == Delimited(s)
  {
    hide DecVarint32;
    Varint32Local(s, t);
    AgreeSlice(s, t, DelimitedEnd(s).value, DecVarint32(s).value.1);
  }

  lemma SkipLocal(s: seq<byte>, wire: nat, t: seq<byte>)
    requires SkipField(s, wire).Some? && Agree(s, t, SkipField(s, wire).value)
    ensures SkipField(t, wire) == SkipField(s, wire)
  {
    hide DelimitedEnd, VarintSpan;
    if wire == WT_VARINT {
      SpanLocal(s, t);
    } else if wire == WT_STRING {
      DelimitedLocal(s, t);
    }
  }

  lemma TagLocal(s: seq<byte>, t: seq<byte>)
    requires DecTag(s).Tag? && Agree(s, t, DecTag(s).size)
    ensures DecTag(t) == DecTag(s)
  {
    hide DecVarint32;
    Varint32Local(s, t);
  }

  lemma NumLocal(lt: LType, dataSize: nat, s: seq<byte>, t: seq<byte>)
    requires lt.Packable() && DecNum(lt, dataSize, s).Some? && Agree(s, t, DecNum(lt, dataSize, s).value.1)
    ensures DecNum(lt, dataSize, t) == DecNum(lt, dataSize, s)
  {
    hide DecVarint64, FixedValue, Narrow;
    var n := DecNum(lt, dataSize, s).value.1;
    AgreeSlice(s, t, n, n);
    if !lt.Fixed32? && !lt.Fixed64? {
      Varint64Local(s, t);
    }
  }

  lemma BlobLocal(lt: LType, dataSize: nat, s: seq<byte>, t: seq<byte>)
    requires lt.BytesArray? || lt.CharArray? || lt.FixedLengthBytes?
    requires DecBlob(lt, dataSize, s).Some? && Agree(s, t, DecBlob(lt, dataSize, s).value.1)
    ensures DecBlob(lt, dataSize, t) == DecBlob(lt, dataSize, s)
  {
    hide DecVarint32;
    Varint32Local(s, t);
    AgreeSlice(s, t, DecBlob(lt, dataSize, s).value.1, DecVarint32(s).value.1);
  }

  lemma ValueLocal(lt: LType, dataSize: nat, repeated: bool, dest: Value, s: seq<byte>, t: seq<byte>)
    requires DecValue(lt, dataSize, repeated, dest, s).Some?
    requires Agree(s, t, DecValue(lt, dataSize, repeated, dest, s).value.1)
    ensures DecValue(lt, dataSize, repeated, dest, t) == DecValue(lt, dataSize, repeated, dest, s)
  {
    hide DelimitedEnd, Delimited, DecNum, DecBlob, DecNoInit, Defaults;
    if lt.Submessage? {
      DelimitedLocal(s, t);
    } else if lt.Packable() {
      NumLocal(lt, dataSize, s, t);
    } else {
      BlobLocal(lt, dataSize, s, t);
    }
  }

  lemma SlotLocal(f: Field, wire: nat, dest: Slot, s: seq<byte>, t: seq<byte>)
    requires DecSlot(f, wire, dest, s).Some? && Agree(s, t, DecSlot(f, wire, dest, s).value.1)
    ensures DecSlot(f, wire, dest, t) == DecSlot(f, wire, dest, s)
  {
    hide DelimitedEnd, Delimited, DecPacked, DecValue, Defaults, ZeroMessage;
    if f.htype.Repeated? {
      if wire == WT_STRING && f.ltype.Packable() {
        DelimitedLocal(s, t);
      } else {
        ValueLocal(f.ltype, f.dataSize, true, dest.items[dest.count], s, t);
      }
    } else {
      var start :=
        if f.htype.OneOf? && f.ltype.Submessage? then Msg(Defaults(f.ltype.fields, ZeroMessage(f.ltype.fields)))
        else dest.value;
      ValueLocal(f.ltype, f.dataSize, false, start, s, t);
    }
  }

  /** A turn of the loop depends only on the bytes it moves over. */
  lemma TurnLocal(fields: seq<Field>, st: Progress, s: seq<byte>, t: seq<byte>)
    requires Turn(fields, st, s).Go? && Agree(s, t, Turn(fields, st, s).n)
    ensures Turn(fields, st, t) == Turn(fields, st, s)
  {
    hide DecTag, Find, DecSlot, SkipField, Stored;
    var tag := DecTag(s);
    TagLocal(s, t);
    AgreeSlice(s, t, Turn(fields, st, s).n, tag.size);
    if Find(fields, tag.tag).Some? {
      var i := Find(fields, tag.tag).value;
      SlotLocal(fields[i], tag.wire, st.message.slots[i], s[tag.size..], t[tag.size..]);
    } else {
      SkipLocal(s[tag.size..], tag.wire, t[tag.size..]);
    }
  }

  // ----- Unknown fields are invisible -----

  /** Position k of s is a top-level field boundary that the loop reaches. */
  ghost predicate Boundary(fields: seq<Field>, st: Progress, s: seq<byte>, k: nat)
    decreases |s|
  {
    k == 0 ||
    (s != [] && Turn(fields, st, s).Go? && Turn(fields, st, s).n <= k &&
     Boundary(fields, Turn(fields, st, s).st, s[Turn(fields, st, s).n..], k - Turn(fields, st, s).n))
  }

  /** u is one whole field whose tag the table does not declare. */
  ghost predicate UnknownField(fields: seq<Field>, u: seq<byte>) {
    && DecTag(u).Tag? && Find(fields, DecTag(u).tag).None? && !(fields == [] && DecTag(u).tag == 0)
    && SkipField(u[DecTag(u).size..], DecTag(u).wire) == Some(|u| - DecTag(u).size)
  }

  lemma SkippedTurn(fields: seq<Field>, st: Progress, u: seq<byte>, t: seq<byte>)
    requires UnknownField(fields, u)
    ensures DecLoop(fields, st, u + t) == DecLoop(fields, st, t)
  {
    hide DecTag, Find, DecField, SkipField;
    var n := DecTag(u).size;
    assert Turn(fields, st, u) == Go(st, |u|);
    assert Agree(u, u + t, |u|);
    TurnLocal(fields, st, u, u + t);
    assert (u + t)[|u|..] == t;
  }

  lemma {:induction false} LoopInvisible(fields: seq<Field>, st: Progress, s: seq<byte>, k: nat, u: seq<byte>)
    requires k <= |s| && Boundary(fields, st, s, k) && UnknownField(fields, u)
    ensures DecLoop(fields, st, s[..k] + u + s[k..]) == DecLoop(fields, st, s)
    decreases |s|
  {
    hide Turn, UnknownField;
    if k == 0 {
      SkippedTurn(fields, st, u, s);
      assert s[..0] + u + s[0..] == u + s;
    } else {
      var Go(st', n) := Turn(fields, st, s);
      var x := s[..k] + u + s[k..];
      Spliced(s, k, n, u);
      TurnLocal(fields, st, s, x);
      LoopInvisible(fields, st', s[n..], k - n, u);
    }
  }

  lemma Spliced(s: seq<byte>, k: nat, n: nat, u: seq<byte>)
    requires n <= k <= |s|
    ensures Agree(s, s[..k] + u + s[k..], n)
    ensures (s[..k] + u + s[k..])[n..] == s[n..][..k - n] + u + s[n..][k - n..]
  {
  }

  /** Inserting a well-formed field with an undeclared tag at any field boundary changes nothing,
      whether the input then decodes or not. */
  lemma UnknownFieldsInvisible(fields: seq<Field>, m: Message, s: seq<byte>, k: nat, u: seq<byte>)
    requires k <= |s| && Boundary(fields, Progress(Defaults(fields, m), {}), s, k) && UnknownField(fields, u)
    ensures DecMessage(fields, m, s[..k] + u + s[k..]) == DecMessage(fields, m, s)
  {
    hide DecLoop, UnknownField, Boundary, Defaults, RequiredSeen;
    LoopInvisible(fields, Progress(Defaults(fields, m), {}), s, k, u);
  }

  // ----- Required fields -----

  /** A field with this tag starts at one of the boundaries the loop reaches. */
  ghost predicate Occurs(fields: seq<Field>, st: Progress, s: seq<byte>, tag: nat) {
    exists k :: 0 <= k < |s| && Boundary(fields, st, s, k) && DecTag(s[k..]).Tag? && DecTag(s[k..]).tag == tag
  }

  lemma OccursLater(fields: seq<Field>, st: Progress, s: seq<byte>, tag: nat)
    requires s != [] && Turn(fields, st, s).Go?
    ensures
      var Go(st', n) := Turn(fields, st, s);
      Occurs(fields, st, s, tag) <==>
      (DecTag(s).Tag? && DecTag(s).tag == tag) || Occurs(fields, st', s[n..], tag)
  {
    hide Turn, DecTag;
    var Go(st', n) := Turn(fields, st, s);
    if DecTag(s).Tag? && DecTag(s).tag == tag {
      assert s[0..] == s;
      assert Boundary(fields, st, s, 0);
    }
    if Occurs(fields, st', s[n..], tag) {
      var k :| 0 <= k < |s[n..]| && Boundary(fields, st', s[n..], k) && DecTag(s[n..][k..]).Tag?
        && DecTag(s[n..][k..]).tag == tag;
      assert s[n..][k..] == s[n + k..];
      assert Boundary(fields, st, s, n + k);
    }
    if Occurs(fields, st, s, tag) {
      var k :| 0 <= k < |s| && Boundary(fields, st, s, k) && DecTag(s[k..]).Tag? && DecTag(s[k..]).tag == tag;
      if k == 0 {
        assert s[0..] == s;
      } else {
        assert s[n..][k - n..] == s[k..];
      }
    }
  }

  lemma OccursLast(fields: seq<Field>, st: Progress, s: seq<byte>, tag: nat)
    requires s != [] && Turn(fields, st, s).Stop?
    ensures !Occurs(fields, st, s, tag)
  {
    hide DecField, SkipField, Find;
    assert s[0..] == s;
  }

  /** A turn marks the field it stores, and no other. */
  lemma TurnSeen(fields: seq<Field>, st: Progress, s: seq<byte>, i: nat)
    requires i < |fields| && DistinctTags(fields) && fields[i].htype.Required? && Turn(fields, st, s).Go?
    ensures i in Turn(fields, st, s).st.seen <==> i in st.seen || DecTag(s).tag == fields[i].tag
  {
    hide DecTag, DecSlot, SkipField, Find;
  }

  lemma {:induction false} LoopSeen(fields: seq<Field>, st: Progress, s: seq<byte>, i: nat)
    requires i < |fields| && DistinctTags(fields) && fields[i].htype.Required? && DecLoop(fields, st, s).Some?
    ensures i in DecLoop(fields, st, s).value.seen <==> i in st.seen || Occurs(fields, st, s, fields[i].tag)
    decreases |s|
  {
    hide Turn, Occurs, DistinctTags;
    if s == [] {
      assert !Occurs(fields, st, s, fields[i].tag) by { NoOccurrence(fields, st, fields[i].tag); }
    } else if Turn(fields, st, s).Stop? {
      OccursLast(fields, st, s, fields[i].tag);
    } else {
      var Go(st', n) := Turn(fields, st, s);
      OccursLater(fields, st, s, fields[i].tag);
      TurnSeen(fields, st, s, i);
      TurnHasTag(fields, st, s);
      LoopSeen(fields, st', s[n..], i);
    }
  }

  lemma NoOccurrence(fields: seq<Field>, st: Progress, tag: nat)
    ensures !Occurs(fields, st, [], tag)
  {
  }

  lemma TurnHasTag(fields: seq<Field>, st: Progress, s: seq<byte>)
    requires Turn(fields, st, s).Go?
    ensures DecTag(s).Tag?
  {
    hide DecTag, DecField, SkipField, Find;
  }

  /** On input that is otherwise valid, pb_decode_noinit succeeds exactly when each of the first 64
      required fields occurs in it: those before which there are fewer than 64. */
  lemma RequiredFieldsChecked(fields: seq<Field>, m: Message, s: seq<byte>)
    requires DistinctTags(fields) && DecLoop(fields, Progress(m, {}), s).Some?
    ensures
      DecNoInit(fields, m, s).Some? <==>
      forall i ::
        0 <= i < |fields| && fields[i].htype.Required? && |set j | 0 <= j < i && fields[j].htype.Required?| < 64 ==>
        Occurs(fields, Progress(m, {}), s, fields[i].tag)
  {
    hide DecLoop, Occurs, RequiredBefore, DistinctTags;
    var st := DecLoop(fields, Progress(m, {}), s).value;
    forall i | 0 <= i < |fields|
      ensures RequiredBefore(fields, i) == |set j | 0 <= j < i && fields[j].htype.Required?|
    {
      RequiredCounted(fields, i);
    }
    forall i | 0 <= i < |fields| && fields[i].htype.Required?
      ensures i in st.seen <==> Occurs(fields, Progress(m, {}), s, fields[i].tag)
    {
      LoopSeen(fields, Progress(m, {}), s, i);
    }
  }
}
