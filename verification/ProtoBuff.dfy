/** src/ProtoBuff.c: marshal, the wrapper that encodes into a buffer. */
module ProtoBuff {
  import opened Bytes
  import opened PbWire
  import opened PbTypes
  import opened PbEncode
  import opened PbOutput
  import opened PbEncoder

  /** What marshal writes: the message, with its length in front if it is delimited. */
  function Marshalled(fields: seq<Field>, m: Message, delimited: bool): Option<seq<byte>> {
    if delimited then Delimit(EncMessage(fields, m)) else EncMessage(fields, m)
  }

  /** It is the message, behind its length as a varint if it is delimited; it is refused if the message is. */
  lemma MarshalledForm(fields: seq<Field>, m: Message, delimited: bool)
    ensures Marshalled(fields, m, delimited).Some? <==> EncMessage(fields, m).Some?
    ensures EncMessage(fields, m).Some? ==>
      var e := EncMessage(fields, m).value;
      Marshalled(fields, m, delimited).value == (if delimited then EncVarint(|e|) else []) + e
  {
    hide EncMessage, EncVarint;
    if EncMessage(fields, m).Some? {
      NoBytes(EncMessage(fields, m).value);
    }
  }

  /** An encoder on a fresh stream fills the front of its buffer. */
  lemma Filled(a: Snap, b: Snap, ok: bool, e: Option<seq<byte>>)
    requires Emitted(a, b, ok, e) && !a.sizing && a.state == 0 && a.written == 0
    ensures ok <==> e.Some? && |e.value| <= a.maxSize
    ensures |b.mem| == |a.mem| && forall i :: a.maxSize <= i < |a.mem| ==> b.mem[i] == a.mem[i]
    ensures ok ==>
      && b.written == |e.value| <= |b.mem| && b.mem[..|e.value|] == e.value
      && forall i :: |e.value| <= i < |a.mem| ==> b.mem[i] == a.mem[i]
  {
  }

  /** The size of what was written, or -1 if the message does not encode or does not fit; nothing is
      written from bufsize on. */
  method Marshal(fields: seq<Field>, m: Message, buf: array<byte>, bufsize: nat, delimited: bool) returns (r: int)
    requires ValidDescriptor(fields) && TypedMessage(fields, m) && Countable(EncMessage(fields, m))
    requires bufsize <= buf.Length
    modifies buf
    ensures
      var e := Marshalled(fields, m, delimited);
      if e.Some? && |e.value| <= bufsize then
        r == |e.value| && buf[..r] == e.value && forall i :: r <= i < buf.Length ==> buf[i] == old(buf[i])
      else r == -1 && forall i :: bufsize <= i < buf.Length ==> buf[i] == old(buf[i])
  {
    hide EncMessage, TypedMessage, ValidDescriptor, EncString, Emitted;
    var stream := new OStream.FromBuffer(buf, 0, bufsize);
    ghost var a := stream.Now();
    var ok;
    if delimited {
      ok := EncodeSubmessage(stream, fields, m);
    } else {
      ok := Encode(stream, fields, m);
    }
    Filled(a, stream.Now(), ok, Marshalled(fields, m, delimited));
    if !ok {
      return -1;
    }
    r := stream.bytesWritten;
  }
}
