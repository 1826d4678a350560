# Verification of the serial transport stack

A Dafny model of the five layers that carry a message over a serial line in this repository, with
proofs about each layer and about all of them together:

- nanopb's encoder and decoder, driven by field descriptor tables (`PbWire`, `PbTypes`, `PbCommon`,
  `PbEncode`, `PbOutput`, `PbEncoder`, `PbDecode`, `PbInput`, `PbRequired`, `PbDecoder`, `PbRoundTrip`,
  `PbSound`, `PbUnknown`, `PbInit`, `WireForm`, `WireRead`, `PbRecords`), and the generator's maximum message
  size (`GeneratorSize`, `DecodedSize`, `SizeReached`, `AlarmClock`);
- COBS and COBS/R (`Cobs`, `Cobsr`, `CobsStatus`);
- the CRC-8 of SMBus (`Crc8`);
- the float and double conversion on bit patterns (`DoubleConversion`);
- PacketSerial, which cuts messages into packets and puts them together again (`ProtoBuff`, `Packets`,
  `PacketOptions`, `PacketSerial`, `SentFrames`, `Reception`, `Receiver`, `EndToEnd`, `Answers`, `Limits`,
  `Transmission`).

`Bytes` and `Powers` hold what all of them use. `dafny verify dfyconfig.toml` checks the project.

Code that works step by step is modelled by methods with loops, arrays and classes: the two nanopb
streams, the field iterator and the receiver are classes with the fields of the C structs, and the
COBS coders move indices over arrays. Each such method is proved equal to a function on byte strings
and values, and the laws are lemmas about these functions. A nanopb encoder, for example, is specified
by the bytes `EncMessage` gives for a table and a message, and its method by what it does to a stream:
count them, write them, or fail because they do not fit.

Encoder and decoder share their constants, and a method shares its function with the lemmas about it. So
`WireForm`, `WireRead` and `PbRecords` say in literal numbers what is on the wire and what is accepted,
`SentFrames` and `Answers` do the same for what `send` hands out and `process` answers, and `CobsStatus`
and `SizeReached` say exactly which flags are raised and when the generator's size is reached.

Conventions: a message struct is a value with one slot per table entry; a field descriptor's offsets are
data of the table; a char array holds the bytes before its terminator; `None` is an error return.
nanopb is taken in its 16-bit field configuration (PB_FIELD_16BIT), which the generated files of the
repository ask for.

## What the proofs show about the code

Some promises hold only under conditions, which the lemmas state exactly:

- `send` takes the last chunk's size as `size % c`, which is 0 when c divides the size. The last c bytes
  of such a message of two chunks or more are never sent (`EndToEnd.MessageArrives`).
- After a failed frame `process` resets the write position but not the room, so each failed frame costs
  its length until a frame succeeds. No packet has fewer than nine bytes, so with nine bytes of room left or
  fewer the receiver is lost for good, and with more a frame can still free it (`EndToEnd.Accounting`,
  `Limits.LostForGood`, `Limits.RoomComesBack`); zero bytes alone bring it there (`Limits.NulsUseUpRoom`,
  `EndToEnd.RefusedForever`). `reset_rx_buffer` does the reverse, and is sound only between frames
  (`Receiver.Receiver.ResetRxBuffer`).
- `process` decodes as many bytes as it received, though `cobs_decode` writes fewer: a packet that announces
  more bytes than were written is completed by memory that was never written. The outcome of a frame does
  not depend on how it is split (`EndToEnd.SplitIndependent`), but it can depend on that memory: a packet
  that lost its last byte is delivered or not (`Limits.JunkDecides`). Exactly when the bytes that reach
  `packet_parser` depend on it is `Reception.JunkFreeExactly`; otherwise the outcome does not either
  (`EndToEnd.ChunkingIndependent`).
- An empty frame makes `decoded_data_array` an array of length zero, which C leaves undefined; here it is empty
  and the frame fails (`Limits.NulsUseUpRoom`).
- `packet_parser` does not check that the data fits the 300-byte reassembly buffer. It overruns it exactly if
  what it holds and the message's payload are longer together (`Limits.MessageOverruns`); a message of 301
  bytes does it, sent with the sizes of the repository (`Limits.LongMessageOverruns`).
- The receiver checks neither the crc nor the sequence number, and the first packet of a message does not
  clear what is left of an earlier one: a lost frame makes a shortened message, a lost last frame puts the
  rest in front of the next message (`EndToEnd.FrameLost`, `EndToEnd.LastFrameLost`,
  `EndToEnd.MessageAfterLeftover`).
- COBS_ENCODE_DST_BUF_LEN_MAX(0) is 0, but the encoding of the empty string has one byte
  (`Cobs.EncodeMaxIsTight`).
- `double_to_float` applies its rounding to NaN payloads too, and turns some NaNs into infinities or
  zeros (`DoubleConversion.NanStaysNan`).
- The generator's maximum size does not take int_size overrides into account, and is too small when a
  uint32 or sint32 field is made 64 bits wide (`GeneratorSize.OverrideMatters`). For negative numbers
  `varint_max_size` subtracts where it should add, which still gives ten bytes.
- It counts one byte for a bool and the longest declared value for an enum, which the decoder does not check:
  a bool sent as 2^32 - 1 is decoded as -1, and encoded again in ten bytes (`DecodedSize.BoolTooLong`). The
  numbers for which the size is enough are exactly those of `GeneratorSize.CountedOn`, and messages made of
  them fit (`DecodedSize.DecodedFits`).
- A failed decode can leave a count of one more than the array holds (`PbSound.CountBeyondArray`); all fields
  but the one that failed are in range (`PbSound.FailedDecode`).
- A field numbered zero is found in the table of an empty message, because the iterator rests on the
  terminator, and then fails to decode (`PbCommon.FieldIter.Find`, `PbDecoder.DecodeTurn`).
- A record is read by the type of its field: the wire type matters only for arrays of numbers and for unknown
  fields (`PbRecords.SingleRead`, `PbRecords.ItemRead`).
- `pb_decode_varint32` keeps its bit position in eight bits, so that in a varint of 38 bytes the last group
  counts from bit 3 again (`WireRead.PositionWraps`).
- The generator's size is the exact maximum of a message type, except that it counts the terminator of a string
  (`SizeReached.StringCounted`), the full width of an unsigned or zigzag number that int_size narrows, a length for an
  array of one that is not packed, and a tag for each number of an array (`SizeReached.ReachedExactly`).
- The required-field bitmap covers the first 64 required fields and no more
  (`PbUnknown.RequiredFieldsChecked`).

## Model

| member | source | states |
|---|---|---|
| Cobs.CobsEncode | lib/cobs-c-0.5.0/cobs.c:39-125 | with room for the whole encoding, exactly `Enc(src)` and status OK; otherwise overflow is flagged, the buffer is full of blocks that stand for the longest prefix of the source whose encoding fits, and nothing is written past it; null pointers are reported |
| Cobs.EncodeLoop | lib/cobs-c-0.5.0/cobs.c:60-103 | the loop over the source bytes, shared with cobsr_encode: what is written, where the open block stands, and when the output runs out |
| Cobs.PatchCode | lib/cobs-c-0.5.0/cobs.c:109-119 | back-patching the code byte turns the open block into a finished one and touches nothing behind it |
| Cobs.EncRoundTrip | lib/cobs-c-0.5.0/cobs.c:60-119 | every encoding is zero-free, is made of blocks that stand for the source, and never ends in a full block and a lone 0x01 |
| Cobs.EncSize | lib/cobs-c-0.5.0/cobs.c:60-103 | the exact size of an encoding: source, one code byte, and one byte for each 254-byte run with more input behind it |
| Cobs.EncodeMaxIsTight | lib/cobs-c-0.5.0/cobs.h:25 | COBS_ENCODE_DST_BUF_LEN_MAX is an upper bound for nonempty sources, attained exactly by those whose runs are split as often as their length allows, zero-free ones among them; for the empty source it is one too small |
| Cobs.CobsDecode | lib/cobs-c-0.5.0/cobs.c:139-220 | output and status are those of `DecodeFrom` of the source as it was, also when the destination is the source buffer |
| Cobs.DecodeLoop | lib/cobs-c-0.5.0/cobs.c:161-217 | the loop over the blocks, with the write position behind the read position |
| Cobs.CopyBlock | lib/cobs-c-0.5.0/cobs.c:173-197 | one block: the length cut to the input and to the output, the flags this raises, and the bytes copied |
| Cobs.TakeBlock | lib/cobs-c-0.5.0/cobs.c:173-215 | a block and the zero behind it, with the three ways the loop can end there |
| Cobs.DecodeOk | lib/cobs-c-0.5.0/cobs.c:161-215 | the status is OK exactly if the input is made of blocks and the output has room for what they stand for |
| Cobs.DecodeMaxSuffices | lib/cobs-c-0.5.0/cobs.h:26 | COBS_DECODE_DST_BUF_LEN_MAX is always enough room |
| Cobs.RoundTrip | lib/cobs-c-0.5.0/cobs.c:60-217 | every encoding decodes with status OK to its source |
| Cobs.CanonicalForm | lib/cobs-c-0.5.0/cobs.c:60-215 | what decodes re-encodes to itself, or to itself without the last byte if it ends in a full block and a lone 0x01 |
| Cobs.Image | lib/cobs-c-0.5.0/cobs.c:60-215 | the encodings are exactly the nonempty block strings that do not end that way |
| Cobs.EncInjective | lib/cobs-c-0.5.0/cobs.c:60-119 | different sources have different encodings |
| Cobsr.CobsrEncode | lib/cobs-c-0.5.0/cobsr.c:39-141 | as cobs_encode, with the reduced final code: the exact output with room for plain COBS, otherwise output that decodes to the longest prefix that fits |
| Cobsr.WriteFinalCode | lib/cobs-c-0.5.0/cobsr.c:115-138 | the final code byte, plain or replaced by the last source byte with the write pointer stepped back |
| Cobsr.RoundTripR | lib/cobs-c-0.5.0/cobsr.c:60-267 | every COBS/R encoding decodes with status OK to its source |
| Cobsr.EncRSize | lib/cobs-c-0.5.0/cobsr.c:115-138 | the encoding is zero-free and one byte shorter than plain COBS exactly if the last source byte is at least the final code |
| Cobsr.CobsrDecode | lib/cobs-c-0.5.0/cobsr.c:155-273 | output and status are those of `DecodeRFrom` of the source as it was, separately or in place |
| Cobsr.DecodeRLoop | lib/cobs-c-0.5.0/cobsr.c:177-267 | the loop of cobsr_decode over all blocks, in place as well |
| Cobsr.InnerRun | lib/cobs-c-0.5.0/cobsr.c:193-225 | a block that more input follows |
| Cobsr.FinalRun | lib/cobs-c-0.5.0/cobsr.c:226-266 | the last block, with the byte its code stands for when the code is larger than the block |
| Cobsr.CopyFitting | lib/cobs-c-0.5.0/cobsr.c:197-213 | the length cut to the room, the flags this raises, and the bytes copied |
| Cobsr.EveryStringDecodes | lib/cobs-c-0.5.0/cobsr.c:181-267 | every nonempty zero-free string decodes with status OK into its own length |
| Cobsr.PlainAccepted | lib/cobs-c-0.5.0/cobsr.c:181-267 | the COBS/R decoder reads plain COBS |
| Cobsr.DecodeRMaxSuffices | lib/cobs-c-0.5.0/cobsr.c:181-267 | no input overflows a buffer of its own length |
| CobsStatus.DecodeExactly | lib/cobs-c-0.5.0/cobs.c:161-217 | on every input, well-formed or not, and with any room: the output is what the input stands for, as far as there is room; overflow is flagged exactly if there is not; with room, a zero byte exactly if the input has one and a short input exactly if some code byte counts more than is left |
| CobsStatus.DecodeRExactly | lib/cobs-c-0.5.0/cobsr.c:177-267 | the same for cobsr_decode, for which no input is too short |
| CobsStatus.DecodeMaxIsTight | lib/cobs-c-0.5.0/cobs.h:26 | for every length some input needs all of COBS_DECODE_DST_BUF_LEN_MAX |
| Crc8.Crc8 | lib/crc8/Crc8.c:86-114 | the bit loop computes the state after one more byte |
| Crc8.Crc8Block | lib/crc8/Crc8.c:125-134 | the state after a block of bytes |
| Crc8.CrcIsRemainder | lib/crc8/Crc8.c:86-134 | the CRC is the remainder of M(x) x^8 modulo x^8 + x^2 + x + 1, and nothing else is |
| Crc8.CrcOfOne | lib/crc8/Crc8.c:86-114 | the CRC of a lone 1 is 0x07, what the polynomial leaves of x^8 |
| Crc8.RemainderUnique | lib/crc8/Crc8.c:86-114 | division by the polynomial over GF(2) has one remainder only |
| Crc8.CrcLinear | lib/crc8/Crc8.c:86-134 | the CRC is linear over xor, for every pair of starting states |
| Crc8.CrcParity | lib/crc8/Crc8.c:86-134 | the CRC has the parity of the message |
| Crc8.BurstDetected | lib/crc8/Crc8.c:86-134 | two messages of equal length that differ only inside a window of eight bits have different CRCs |
| DoubleConversion.FloatToDouble | lib/nanopb-0.3.9.3/examples/using_double_on_avr/double_conversion.c:16-60 | the code computes `FloatToDoubleBits` |
| DoubleConversion.Normalise | lib/nanopb-0.3.9.3/examples/using_double_on_avr/double_conversion.c:44-50 | the loop finds the leading bit of a subnormal mantissa and counts the steps |
| DoubleConversion.DoubleToFloat | lib/nanopb-0.3.9.3/examples/using_double_on_avr/double_conversion.c:62-121 | the code computes `DoubleToFloatBits` |
| DoubleConversion.FloatToDoubleIsExact | lib/nanopb-0.3.9.3/examples/using_double_on_avr/double_conversion.h:15-16 | the double has exactly the value of the float; sign, infinities and NaNs are kept |
| DoubleConversion.RoundsToNearest | lib/nanopb-0.3.9.3/examples/using_double_on_avr/double_conversion.h:18-22 | every double that is not a NaN goes to the nearest float, ties away from zero, with subnormal results, carries and overflow to infinity |
| DoubleConversion.RoundTrip | lib/nanopb-0.3.9.3/examples/using_double_on_avr/double_conversion.c:16-121 | float to double and back is the identity on all bit patterns |
| DoubleConversion.NanStaysNan | lib/nanopb-0.3.9.3/examples/using_double_on_avr/double_conversion.c:75-120 | a NaN stays a NaN exactly if its 24 leading mantissa bits are neither all zero nor all one |
| PbWire.EncVarintForm | lib/nanopb-0.3.9.3/pb_encode.c:577-597 | the encoding is one varint and has the value of the number |
| PbWire.VarintMinimal | lib/nanopb-0.3.9.3/pb_encode.c:577-597 | it is the shortest varint with that value, and the only one without a superfluous zero byte |
| PbWire.Varint64RoundTrip | lib/nanopb-0.3.9.3/pb_decode.c:250-271 | at most ten bytes, and pb_decode_varint inverts pb_encode_varint |
| PbWire.Varint32RoundTrip | lib/nanopb-0.3.9.3/pb_decode.c:182-242 | pb_decode_varint32 reads back every number below 2^32 |
| PbWire.NegativeVarint32 | lib/nanopb-0.3.9.3/pb_decode.c:214-226 | pb_decode_varint32 reads the ten-byte form of every negative int32 |
| PbWire.DecodersAgree | lib/nanopb-0.3.9.3/pb_decode.c:182-271 | whatever both decoders accept they read over the same bytes, with the same value modulo 2^32 |
| PbWire.ZigZagRoundTrip | lib/nanopb-0.3.9.3/pb_decode.c:1245-1257 | zigzag inverts over all of int64 |
| PbWire.SignedRoundTrip | lib/nanopb-0.3.9.3/pb_decode.c:1308-1326 | narrowing the unsigned form of a signed number that fits gives it back |
| PbWire.FixedRoundTrip | lib/nanopb-0.3.9.3/pb_decode.c:1259-1291 | fixed-width numbers are read back |
| WireForm.VarintByte | lib/nanopb-0.3.9.3/pb_encode.c:577-597 | each byte of a varint holds seven bits of the number, the lowest first, and says whether more follow |
| WireForm.TagForm | lib/nanopb-0.3.9.3/pb_encode.c:638-675 | a field begins with 8 times its number plus 0 for varints, 1 for fixed64, 5 for fixed32 and 2 for everything else |
| WireForm.NumberForm | lib/nanopb-0.3.9.3/pb_encode.c:737-811 | what each kind of number is on the wire: sign-extended to 64 bits, zigzag, or four or eight bytes with the lowest first; only a size that no C integer has is refused |
| WireForm.StringForm | lib/nanopb-0.3.9.3/pb_encode.c:813-871 | byte strings with their length in front; a bytes field needs two bytes more than the string, a fixed-length one exactly its bytes, and a string ends at its terminator or with its array |
| WireForm.SubmessageForm | lib/nanopb-0.3.9.3/pb_encode.c:685-733 | a submessage is the length of its encoding and the encoding |
| WireForm.PackedForm | lib/nanopb-0.3.9.3/pb_encode.c:126-188 | an array of numbers is one tag of wire type 2, the length of all items and the items; too many are refused |
| WireForm.UnpackedForm | lib/nanopb-0.3.9.3/pb_encode.c:190-211 | any other array is its items with a tag each |
| WireForm.ItemsInOrder | lib/nanopb-0.3.9.3/pb_encode.c:180-208 | in the order of the array |
| WireForm.FieldsInOrder | lib/nanopb-0.3.9.3/pb_encode.c:497-519 | the fields of a message come in the order of the table |
| WireForm.DoubleField | lib/nanopb-0.3.9.3/examples/using_double_on_avr/doubleproto.proto:11-14 | a fixed64 numbered 1 goes out as 0x09 and eight bytes |
| WireRead.Varint64Exactly | lib/nanopb-0.3.9.3/pb_decode.c:250-271 | pb_decode_varint takes exactly the varints of at most ten bytes, and keeps 64 bits of the sum of their groups |
| WireRead.Varint32Exactly | lib/nanopb-0.3.9.3/pb_decode.c:182-242 | pb_decode_varint32 takes a varint of up to 37 bytes if and only if what lies behind bit 31 is zeros, or the ones of a negative number in 64 bits; it keeps 32 bits |
| WireRead.PositionWraps | lib/nanopb-0.3.9.3/pb_decode.c:194-238 | the bit position is kept in eight bits: in a varint of 38 bytes the last group counts from bit 3 again |
| WireRead.VarintRead | lib/nanopb-0.3.9.3/pb_decode.c:1294-1377 | a varint is accepted if and only if the number it means for the field is in the range of the field's C type, and that number is stored |
| WireRead.TooLargeRefused | lib/nanopb-0.3.9.3/pb_decode.c:1346-1350 | 300 in a one-byte uint32 is refused |
| WireRead.FixedRead | lib/nanopb-0.3.9.3/pb_decode.c:1259-1291 | fixed-width numbers need four or eight bytes, and are these with the lowest first |
| WireRead.TagRead | lib/nanopb-0.3.9.3/pb_decode.c:293-314 | the low three bits of a tag are the wire type; a zero ends the message |
| WireRead.SkipRead | lib/nanopb-0.3.9.3/pb_decode.c:316-326 | an unknown field takes a varint for wire type 0, eight bytes for 1, a length and its bytes for 2, four bytes for 5; every other wire type is refused |
| WireRead.StringRead | lib/nanopb-0.3.9.3/pb_decode.c:1396-1513 | a byte string is accepted if and only if all of it is there and it fits the array, with its two-byte length, with a terminator, or exactly; what is stored is the string, and zeros for an empty fixed-length one |
| PbCommon.FieldIter.Begin | lib/nanopb-0.3.9.3/pb_common.c:8-18 | the iterator rests on the first field, with the offsets of the table, or on the terminator of an empty one |
| PbCommon.FieldIter.Next | lib/nanopb-0.3.9.3/pb_common.c:20-76 | in every reachable state the data pointer, the size pointer and the required-field index are the sums over the fields before the position; false exactly when it wraps |
| PbCommon.FieldIter.Find | lib/nanopb-0.3.9.3/pb_common.c:78-95 | it succeeds exactly if the tag is in the table, from wherever it stands, and otherwise does not move; on an empty table the terminator has tag zero |
| PbCommon.FieldsApart | lib/nanopb-0.3.9.3/pb_common.c:46-74 | a field that does not share a union with the next one ends before every later field begins; members of a union lie in the same place |
| PbCommon.LayoutFollowed | lib/nanopb-0.3.9.3/pb.h:395-399 | for a table whose offsets are those of a struct, the iterator's sums are the places of the members and of their has_ flags, counts and which_ numbers |
| PbCommon.RequiredCounted | lib/nanopb-0.3.9.3/pb_common.c:63-69 | the required-field index is the number of required fields before the position |
| PbOutput.OStream.BufWrite | lib/nanopb-0.3.9.3/pb_encode.c:72-82 | buf_write: the bytes appear where the stream stands, and nothing else changes |
| PbOutput.OStream.Write | lib/nanopb-0.3.9.3/pb_encode.c:101-119 | pb_write with buf_write: a sizing stream counts; a writing one appends if there is room, changes nothing else, and refuses otherwise |
| PbOutput.TwoPasses | lib/nanopb-0.3.9.3/pb_encode.c:101-119 | a sizing stream counts exactly the bytes a writing stream emits, and writing succeeds exactly if the counted size fits the room, with nothing written outside it |
| PbOutput.EmittedThen | lib/nanopb-0.3.9.3/pb_encode.c:101-119 | one encoder after another emits the two results one behind the other, and fails exactly if they do not fit together |
| PbOutput.EncodeVarint | lib/nanopb-0.3.9.3/pb_encode.c:577-597 | emits the minimal base-128 form |
| PbOutput.VarintBytes | lib/nanopb-0.3.9.3/pb_encode.c:588-595 | the ten-byte buffer is large enough for every 64-bit number |
| PbOutput.EncodeSvarint | lib/nanopb-0.3.9.3/pb_encode.c:599-608 | the shift and complement of 64-bit words give the zigzag number |
| PbOutput.EncodeFixed32 | lib/nanopb-0.3.9.3/pb_encode.c:610-619 | emits the four bytes, lowest first |
| PbOutput.EncodeFixed64 | lib/nanopb-0.3.9.3/pb_encode.c:622-635 | emits the eight bytes, lowest first |
| PbOutput.FixedAt | lib/nanopb-0.3.9.3/pb_encode.c:614-633 | shifting and masking gives the bytes of the number in base 256 |
| PbOutput.EncodeTag | lib/nanopb-0.3.9.3/pb_encode.c:638-642 | emits tag and wire type as one varint |
| PbOutput.EncodeString | lib/nanopb-0.3.9.3/pb_encode.c:677-683 | emits the length and the bytes |
| PbEncoder.EncodeNumber | lib/nanopb-0.3.9.3/pb_encode.c:737-811 | the five number encoders emit `EncValue`; an unknown size is an error |
| PbEncoder.StringLength | lib/nanopb-0.3.9.3/pb_encode.c:849-855 | the loop finds the bytes before the terminator, at most the size of the array |
| PbEncoder.EncodeBlob | lib/nanopb-0.3.9.3/pb_encode.c:813-871 | the byte string encoders emit `EncValue`; too many bytes are an error |
| PbEncoder.EncodeSubmessage | lib/nanopb-0.3.9.3/pb_encode.c:685-733 | the length and the message, in two passes, and nothing beyond the room |
| PbEncoder.SecondPass | lib/nanopb-0.3.9.3/pb_encode.c:711-733 | the second pass always succeeds and fills its substream: "submsg size changed" cannot happen |
| PbEncoder.EncodeOne | lib/nanopb-0.3.9.3/pb_encode.c:644-675 | the tag for the field and its value, `EncTagged`; WireForm.TagForm says with which numbers |
| PbEncoder.PackedSize | lib/nanopb-0.3.9.3/pb_encode.c:148-172 | the size of a packed array, computed for fixed-width items and counted otherwise, is that of its items |
| PbEncoder.EncodePackedItems | lib/nanopb-0.3.9.3/pb_encode.c:180-187 | the loop over packed items, on the sizing and on the real stream |
| PbEncoder.EncodePacked | lib/nanopb-0.3.9.3/pb_encode.c:148-188 | size and items of a packed array |
| PbEncoder.EncodeUnpackedItems | lib/nanopb-0.3.9.3/pb_encode.c:190-208 | the loop over items with tags |
| PbEncoder.EncodeArray | lib/nanopb-0.3.9.3/pb_encode.c:126-211 | encode_array emits `EncArray`; too many items are an error |
| PbEncoder.EncodeField | lib/nanopb-0.3.9.3/pb_encode.c:310-395 | encode_basic_field emits the field if it is present |
| PbEncoder.Encode | lib/nanopb-0.3.9.3/pb_encode.c:497-519 | pb_encode emits `EncMessage`, succeeds exactly if there is one and it fits, and writes nothing beyond the room |
| PbEncode.MessageEncodes | lib/nanopb-0.3.9.3/pb_encode.c:497-519 | no in-range message is refused |
| PbEncode.InRangeIsTyped | lib/nanopb-0.3.9.3/pb_encode.c:310-395 | an in-range message is one pb_encode may be given |
| PbInput.IStream.Read | lib/nanopb-0.3.9.3/pb_decode.c:85-131 | count bytes into a buffer and nothing beyond them, or an error with neither the stream nor the buffer changed |
| PbInput.IStream.Skip | lib/nanopb-0.3.9.3/pb_decode.c:100-131 | count bytes skipped |
| PbInput.IStream.ReadByte | lib/nanopb-0.3.9.3/pb_decode.c:136-152 | the next byte, or end of stream |
| PbInput.IStream.DecodeVarint32Eof | lib/nanopb-0.3.9.3/pb_decode.c:182-242 | the loop computes `DecVarint32`, with an eight-bit bit position and or-ed groups |
| PbInput.IStream.DecodeVarint | lib/nanopb-0.3.9.3/pb_decode.c:250-271 | the loop computes `DecVarint64`: at most ten bytes, the value modulo 2^64 |
| PbInput.IStream.SkipVarint | lib/nanopb-0.3.9.3/pb_decode.c:273-282 | skips to behind the first byte below 128 |
| PbInput.IStream.SkipString | lib/nanopb-0.3.9.3/pb_decode.c:284-291 | skips the delimited bytes |
| PbInput.IStream.SkipField | lib/nanopb-0.3.9.3/pb_decode.c:316-326 | takes `SkipField` bytes, or fails; WireRead.SkipRead says how many for each wire type |
| PbInput.IStream.DecodeTag | lib/nanopb-0.3.9.3/pb_decode.c:293-314 | tag and wire type; a zero tag ends the message |
| PbInput.IStream.MakeStringSubstream | lib/nanopb-0.3.9.3/pb_decode.c:367-380 | the substream holds exactly the delimited bytes |
| PbInput.IStream.CloseStringSubstream | lib/nanopb-0.3.9.3/pb_decode.c:382-395 | the parent goes on exactly where the delimited bytes end, whatever was read of them |
| PbInput.GroupRead | lib/nanopb-0.3.9.3/pb_decode.c:250-271 | one more group of seven bits, or-ed in, keeps the value modulo 2^64 |
| PbRequired.MarkSeen | lib/nanopb-0.3.9.3/pb_decode.c:993-998 | setting a bit of fields_seen marks that required field and no other |
| PbRequired.CountRequired | lib/nanopb-0.3.9.3/pb_decode.c:1019-1032 | moving the iterator to the end counts the required fields, at most 64 |
| PbRequired.CheckRequired | lib/nanopb-0.3.9.3/pb_decode.c:1011-1051 | comparing whole words and then the remaining bits tells whether each of the first 64 required fields has been seen |
| PbRequired.RequiredMarked | lib/nanopb-0.3.9.3/pb_decode.c:1011-1051 | the required-field indices below the count are exactly those of the first 64 required fields |
| PbRequired.Ones | lib/nanopb-0.3.9.3/pb_decode.c:1036-1048 | a word equals all-ones of a width exactly if its bits say so |
| PbDecoder.SetFieldToDefault | lib/nanopb-0.3.9.3/pb_decode.c:817-887 | one field set to its default |
| PbDecoder.SetToDefaults | lib/nanopb-0.3.9.3/pb_decode.c:889-900 | every field set to its default, recursively |
| PbDecoder.DecodeSvarint | lib/nanopb-0.3.9.3/pb_decode.c:1245-1257 | the zigzag number undone |
| PbDecoder.DecodeVarintField | lib/nanopb-0.3.9.3/pb_decode.c:1294-1377 | the three varint decoders compute `DecNum`; WireRead.VarintRead says exactly which numbers are refused |
| PbDecoder.DecodeFixed | lib/nanopb-0.3.9.3/pb_decode.c:1259-1291 | four or eight bytes put together |
| PbDecoder.DecodeNumber | lib/nanopb-0.3.9.3/pb_decode.c:1294-1394 | the number decoder the field selects |
| PbDecoder.DecodeBlob | lib/nanopb-0.3.9.3/pb_decode.c:1396-1513 | the byte string decoders with their size checks, and zeros for an empty fixed-length string |
| PbDecoder.DecodeItem | lib/nanopb-0.3.9.3/pb_decode.c:64-80 | the decoder the field selects computes `DecValue` and keeps the shape of the struct |
| PbDecoder.DecodeSubmessage | lib/nanopb-0.3.9.3/pb_decode.c:1468-1490 | decodes the delimited bytes and leaves the parent behind them; array entries are initialised first |
| PbDecoder.DecodePackedItems | lib/nanopb-0.3.9.3/pb_decode.c:429-448 | the loop over a packed array takes all of the substream or fails |
| PbDecoder.DecodeRepeatedField | lib/nanopb-0.3.9.3/pb_decode.c:417-461 | a packed array, or one more item if there is room |
| PbDecoder.DecodeStaticField | lib/nanopb-0.3.9.3/pb_decode.c:401-475 | decode_static_field computes `DecSlot` |
| PbDecoder.DecodeField | lib/nanopb-0.3.9.3/pb_decode.c:712-738 | the field stored in the message, with the number of its oneof |
| PbDecoder.DecodeTurn | lib/nanopb-0.3.9.3/pb_decode.c:929-1003 | one turn of the loop: tag, search, skip or decode |
| PbDecoder.DecodeNoInit | lib/nanopb-0.3.9.3/pb_decode.c:906-1054 | pb_decode_noinit computes `DecNoInit` on all inputs, including malformed ones; when it fails it leaves what the turns before the failing one have decoded, but for the field it was at |
| PbDecoder.Decode | lib/nanopb-0.3.9.3/pb_decode.c:1056-1068 | pb_decode computes `DecMessage`, keeps the shape of the struct, and leaves as much when it fails |
| PbDecoder.DefaultsShaped | lib/nanopb-0.3.9.3/pb_decode.c:889-900 | setting defaults keeps the shape of a struct |
| PbRoundTrip.DecodeInverts | lib/nanopb-0.3.9.3/pb_decode.c:1056-1068 | decoding the encoding of any in-range message whose submessages have 32-bit lengths, into a struct with any contents, succeeds and gives the same message up to the contents of absent fields |
| PbRoundTrip.OtherTableReads | lib/nanopb-0.3.9.3/pb_decode.c:906-1068 | the same for a reader whose table differs from the writer's at any level of nesting, lacking fields or having more, with wider integers, longer strings and arrays, or optional where the writer has required: it succeeds, has what was written in the fields it knows and defaults in those that were not written; a oneof whose chosen member it does not know reads as unset |
| PbRoundTrip.NoInitReads | lib/nanopb-0.3.9.3/pb_decode.c:906-1054 | the same for pb_decode_noinit into a struct set to its defaults, by induction over the tables |
| PbRoundTrip.ReadIsSame | lib/nanopb-0.3.9.3/pb_decode.c:906-1054 | what is read with the writer's own table is the message |
| PbRoundTrip.ShortIsLegible | lib/nanopb-0.3.9.3/pb_decode.c:367-380 | in a message of less than 2^32 bytes every submessage has a 32-bit length |
| PbRoundTrip.ValueRead | lib/nanopb-0.3.9.3/pb_decode.c:1294-1513 | every field decoder inverts its encoder, whatever follows in the input, also into a wider type or a larger array |
| PbRoundTrip.PackedRoundTrip | lib/nanopb-0.3.9.3/pb_decode.c:417-448 | a packed array is read back item by item |
| PbRoundTrip.ItemsRead | lib/nanopb-0.3.9.3/pb_decode.c:450-461 | items with tags are read back one by one into an array that fills up |
| PbRoundTrip.DefaultsFresh | lib/nanopb-0.3.9.3/pb_decode.c:817-900 | setting defaults clears every has_ flag, count and oneof number, recursively |
| PbUnknown.TurnLocal | lib/nanopb-0.3.9.3/pb_decode.c:929-1003 | a turn of the decoding loop depends only on the bytes it moves over |
| PbUnknown.UnknownFieldsInvisible | lib/nanopb-0.3.9.3/pb_decode.c:938-967 | inserting a well-formed field with an undeclared tag at any top-level field boundary changes nothing, whether the input decodes or not |
| PbUnknown.RequiredFieldsChecked | lib/nanopb-0.3.9.3/pb_decode.c:1011-1051 | on otherwise valid input pb_decode_noinit succeeds exactly if each of the first 64 required fields occurs |
| PbRecords.RecordRead | lib/nanopb-0.3.9.3/pb_decode.c:929-1003 | a record of a declared field changes its slot, the number of its oneof and, if it is required, what has been seen, and nothing else; it fails exactly if its value does |
| PbRecords.UnknownRecord | lib/nanopb-0.3.9.3/pb_decode.c:938-967 | a record of an unknown field is moved over, or fails the message if it cannot be |
| PbRecords.FieldZero | lib/nanopb-0.3.9.3/pb_decode.c:938-967 | a field numbered zero is moved over as well, but fails on an empty table |
| PbRecords.ZeroEnds | lib/nanopb-0.3.9.3/pb_decode.c:293-314 | a zero where a tag would be ends the message, whatever follows |
| PbRecords.FailureFails | lib/nanopb-0.3.9.3/pb_decode.c:929-1003 | a tag that is cut off, or a record that cannot be read, fails the message |
| PbRecords.Chained | lib/nanopb-0.3.9.3/pb_decode.c:906-1054 | whole records and then anything else are decoded like one input after the other |
| PbRecords.SubmessageRead | lib/nanopb-0.3.9.3/pb_decode.c:1468-1490 | a submessage is merged into what an optional or required field holds; a member of a oneof starts from zeros and an array item from what is there, both with their defaults |
| PbRecords.SubmessagesMerge | lib/nanopb-0.3.9.3/pb_decode.c:1468-1490 | so a submessage may come in parts: two records do the same as one with the bytes of both, if the first is made of whole records and each is complete |
| PbRecords.SingleRead | lib/nanopb-0.3.9.3/pb_decode.c:401-416 | the last value of a field counts, whatever the wire type says, and sets its flag |
| PbRecords.ItemRead | lib/nanopb-0.3.9.3/pb_decode.c:450-461 | one more item goes behind those there are, if there is room; so for numbers that come one by one |
| PbRecords.PackedRead | lib/nanopb-0.3.9.3/pb_decode.c:417-448 | a packed array goes behind the items there are, all of it, or fails if it does not fit or is not made of whole numbers in range |
| PbRecords.FailureLeaves | lib/nanopb-0.3.9.3/pb_decode.c:906-1054 | a failing run leaves the records before the failing one; of that one only its own field shows, with its flag, its oneof's number and its count, in 16 bits, and an array keeps the items it had |
| PbRecords.UnwrittenDefaults | lib/nanopb-0.3.9.3/pb_decode.c:817-900 | after pb_decode a field that does not occur has its declared default or zeros, no flag and no items, a oneof of which nothing occurs has the number zero, and a submessage that does not occur has its own defaults |
| PbRoundTrip.FieldSkipped | lib/nanopb-0.3.9.3/pb_decode.c:316-326 | whatever a field encoder writes, packed and unpacked arrays included, a decoder that does not know the field moves over it |
| PbRoundTrip.ValueSkipped | lib/nanopb-0.3.9.3/pb_decode.c:316-326 | pb_skip_field takes exactly the bytes the encoder of the wire type wrote |
| PbInit.DestinationIrrelevant | lib/nanopb-0.3.9.3/pb_decode.c:906-1068 | on every input, pb_decode into two structs of any contents succeeds for both or for neither, and leaves the same message in both, up to the contents of absent fields |
| PbSound.AnyDecodeInRange | lib/nanopb-0.3.9.3/pb_decode.c:906-1068 | whatever the input, what pb_decode accepts leaves a struct in the range of its C types: no count exceeds its array and every value fits its type, at every level |
| PbSound.FailedDecode | lib/nanopb-0.3.9.3/pb_decode.c:906-1068 | whatever the input, when pb_decode fails every field but the one it was at is in range, and the count of that one is at most one above its array |
| PbSound.CountBeyondArray | lib/nanopb-0.3.9.3/pb_decode.c:450-456 | it can be above: the count is incremented before the item is refused |
| PbRoundTrip.DecodedReencodes | lib/nanopb-0.3.9.3/pb_decode.c:1056-1068 | what was decoded from any input encodes again, and decodes to the same message, if its submessages have 32-bit lengths |
| PbSound.DefaultsSound | lib/nanopb-0.3.9.3/pb_decode.c:817-900 | a struct set to its defaults is in range, whatever it held |
| PbSound.ValueSound | lib/nanopb-0.3.9.3/pb_decode.c:1294-1513 | every field decoder yields a value that fits its field, or fails |
| PbSound.FieldSound | lib/nanopb-0.3.9.3/pb_decode.c:401-475 | storing a decoded field keeps the whole struct in range, the other members of its oneof included |
| GeneratorSize.GeneratorBound | lib/nanopb-0.3.9.3/generator/nanopb_generator.py:1039-1050 | every message in the range of its C types whose bools and enums take no more bytes than counted encodes, to at most the size computed over the fields as declared, in whatever order the tables list them at every level of nesting |
| GeneratorSize.MessageBound | lib/nanopb-0.3.9.3/generator/nanopb_generator.py:1039-1050 | pb_encode writes at most Message.encoded_size bytes, for every message of every nested static type whose bools and enums take no more bytes than counted |
| GeneratorSize.CountedOn | lib/nanopb-0.3.9.3/generator/nanopb_generator.py:134-141 | a number in the range of its C type takes no more bytes than counted if and only if it is a bool from 0 to 127, an enum number no longer than the longest declared one, or of any other kind |
| GeneratorSize.NumberFieldExactly | lib/nanopb-0.3.9.3/generator/nanopb_generator.py:644-707 | so a field that holds one number stays within Field.encoded_size if and only if the number is counted on |
| GeneratorSize.DeclaredValue | lib/nanopb-0.3.9.3/generator/nanopb_generator.py:214-215 | the declared values of an enum are counted on |
| DecodedSize.DecodedFits | lib/nanopb-0.3.9.3/generator/nanopb_generator.py:1039-1050 | whatever was decoded encodes again within the size if its bools and enums are counted on |
| DecodedSize.BoolTooLong | lib/nanopb-0.3.9.3/pb_decode.c:1294-1377 | otherwise it may not: a bool sent as 2^32 - 1 is decoded as -1 and encoded again in ten bytes, where the generator counts one |
| GeneratorSize.FieldBound | lib/nanopb-0.3.9.3/generator/nanopb_generator.py:644-707 | a field takes at most Field.encoded_size bytes, and none if it is absent |
| GeneratorSize.PackedFits | lib/nanopb-0.3.9.3/generator/nanopb_generator.py:696-705 | a packed array is no longer than the unpacked one, plus one byte if max_count is 1 |
| GeneratorSize.UnionLargest | lib/nanopb-0.3.9.3/generator/nanopb_generator.py:870-883 | the size of a oneof is that of its largest member, or none if a member has none |
| GeneratorSize.UnionBound | lib/nanopb-0.3.9.3/generator/nanopb_generator.py:870-883 | a oneof takes at most its largest member |
| GeneratorSize.OverrideMatters | lib/nanopb-0.3.9.3/generator/nanopb_generator.py:366-374 | with an int_size override the bound holds for all values exactly if a 32-bit number whose maximum counts on 32 bits is not made wider |
| GeneratorSize.SizeOrder | lib/nanopb-0.3.9.3/generator/nanopb_generator.py:1039-1050 | the size does not depend on the order of the fields, which the table sorts by tag, nor on that in the nested messages and oneofs |
| GeneratorSize.PermutedIsReordered | lib/nanopb-0.3.9.3/generator/nanopb_generator.py:1039-1050 | every permutation of the fields is such a reordering |
| GeneratorSize.VarintMaxSize | lib/nanopb-0.3.9.3/generator/nanopb_generator.py:134-141 | the loop finds the length of the minimal varint; ten for the negative numbers it is given; an error from 2^70 on |
| GeneratorSize.EnumEncodedSize | lib/nanopb-0.3.9.3/generator/nanopb_generator.py:214-215 | the largest over the values |
| GeneratorSize.EnumBound | lib/nanopb-0.3.9.3/generator/nanopb_generator.py:214-215 | no value of an enum, negative ones sign-extended, is longer than that |
| GeneratorSize.TypeEncodedSize | lib/nanopb-0.3.9.3/generator/nanopb_generator.py:649-691 | the size for each type, `TypeMax`; SizeReached.ReachedExactly says when a message takes all of it |
| GeneratorSize.FieldEncodedSize | lib/nanopb-0.3.9.3/generator/nanopb_generator.py:644-707 | the size with the tag, times max_count |
| GeneratorSize.OneOfEncodedSize | lib/nanopb-0.3.9.3/generator/nanopb_generator.py:870-883 | the maximum over the members |
| GeneratorSize.MessageEncodedSize | lib/nanopb-0.3.9.3/generator/nanopb_generator.py:1039-1050 | the sum over the fields, or no result if a member has none |
| SizeReached.ReachedExactly | lib/nanopb-0.3.9.3/generator/nanopb_generator.py:644-707 | some message of declared values takes exactly Message.encoded_size bytes if and only if its type counts nothing, at any level, that is never written: the terminator of a string, the full width of an unsigned or zigzag number that int_size narrows, the length of an array of one that is not packed, or a tag for each number of an array whose length takes fewer bytes; of a oneof some largest member must be such |
| SizeReached.MessageReached | lib/nanopb-0.3.9.3/generator/nanopb_generator.py:1039-1050 | such a message: the longest value in every field, and the largest member of every oneof |
| SizeReached.StringCounted | lib/nanopb-0.3.9.3/generator/nanopb_generator.py:649-691 | a string is counted with n bytes of text, of which exactly n - 1 can be written |
| SizeReached.PackedStrict | lib/nanopb-0.3.9.3/generator/nanopb_generator.py:696-705 | a packed array takes all the bytes counted only if it is full of the longest items and its length takes as many bytes as the tags that are saved |
| AlarmClock.NeoPixelSize | src/messages/alarmclock.pb.h:112 | NeoPixelMsg_size is 54, and reached |
| AlarmClock.AlarmSize | src/messages/alarmclock.pb.h:111 | AlarmMsg_size is 20, and reached |
| AlarmClock.TimeSize | src/messages/alarmclock.pb.h:110 | TimeMsg_size is 18, and reached |
| AlarmClock.SpeechSynthSize | src/messages/alarmclock.pb.h:109 | SpeechSynthMsg_size is 259, and never reached, because it counts the terminator |
| ProtoBuff.Marshal | src/ProtoBuff.c:42-60 | the size of what was written and exactly those bytes, or -1 if the message does not encode or does not fit, with nothing written from bufsize on |
| ProtoBuff.MarshalledForm | src/ProtoBuff.c:42-60 | what marshal writes is the message, behind its length as a varint if it is delimited |
| PacketOptions.PacketTable | src/messages/packetserial.proto:13-25 | the descriptor used here is the one that goes with the .proto declaration and its options |
| PacketOptions.PacketSize | src/messages/packetserial.options:1-3 | Packet_size is 32 |
| PacketOptions.PacketSizeSuffices | src/PacketSerial.c:70-75 | with it the buffers of send and process hold the largest frame |
| Packets.PacketEncodes | src/PacketSerial.c:70-75 | a packet encodes, and its delimited form and its frame have bounded length |
| Packets.PacketForm | src/messages/packetserial.proto:13-25 | a packet byte by byte: its length, 0x0A and the data with their length, 0x10 and the sequence number, 0x18 and the crc, 0x20 and the flag |
| EndToEnd.PacketDecodes | src/PacketSerial.c:125-132 | decoding a packet gives its data, sequence number, crc and flag, whatever the struct held |
| Packets.ChunkFits | src/PacketSerial.c:37-61 | the chunks lie one behind the other inside the message; the last one ends at its end, or c bytes before it if c divides a size of two chunks or more |
| PacketSerial.CalculateCrc | src/PacketSerial.c:15-22 | `CrcValue` of the data |
| SentFrames.CrcExactly | src/PacketSerial.c:15-22 | that is the remainder of the bits of the data, times x^8, modulo x^8 + x^2 + x + 1, and nothing else is |
| PacketSerial.BuildPacket | src/PacketSerial.c:23-30 | data, sequence number, CRC and flag |
| PacketSerial.ChooseChunk | src/PacketSerial.c:43-62 | flag and size of each chunk |
| PacketSerial.EncodeFrame | src/PacketSerial.c:67-75 | marshal, cobs_encode and the final zero give the frame, in buffers of the sizes used |
| PacketSerial.Send | src/PacketSerial.c:32-95 | the tx handler is called with the frames of the message in order, whatever it answers; the result tells whether it accepted all, each answer being that to its own call; without a handler nothing is sent |
| SentFrames.FrameCarries | src/PacketSerial.c:32-91 | there are as many frames as the size over c rounded up; undoing COBS on the i-th gives the packet with the i-th chunk, i modulo 256 as its sequence number, the remainder of exactly that chunk as its crc, and flag 3 for an only packet, 0 for the first, 2 for the last and 1 for the others; and pb_decode reads these four |
| Receiver.StrNCpy | src/PacketSerial.c:165-165 | strncpy: bytes up to a zero, zeros behind it, nothing else changed |
| Receiver.StrLen | src/PacketSerial.c:169-169 | the first zero |
| Receiver.Receiver.constructor | src/PacketSerial.c:3-9 | the static initial state |
| Receiver.Receiver.ResetPacketBuffer | src/PacketSerial.c:115-119 | the reassembly buffer is empty and zero |
| Receiver.Receiver.ResetRxBuffer | src/PacketSerial.c:120-124 | the room is reset but not the write position, which keeps the buffer safe only between frames |
| Receiver.Receiver.PacketParser | src/PacketSerial.c:125-153 | decodes into a struct that may hold anything, computes `Accept` for a packet that decodes, which Answers.LastPacketAsked and EndToEnd.MessageArrives spell out, and changes nothing otherwise |
| Receiver.AnyStruct | src/PacketSerial.c:125-128 | what a packet decodes to does not depend on what the uninitialised struct held, valid packet or not |
| Receiver.Receiver.Append | src/PacketSerial.c:129-130 | the data is put behind what has been received |
| Receiver.Receiver.ExplicitUnmarshal | src/ProtoBuff.c:77-108 | the delimited bytes are handed to packet_parser |
| Receiver.Receiver.CompleteFrame | src/PacketSerial.c:168-186 | strlen, cobs_decode, parsing, and the two resets that depend on the outcome |
| Receiver.Receiver.Process | src/PacketSerial.c:154-188 | process computes `Step` on the two buffers, and no write leaves rx_buffer |
| EndToEnd.Accounting | src/PacketSerial.c:154-188 | after every run the bytes held, the room left and the bytes of frames failed since the last success add up to the buffer |
| EndToEnd.RefusedForever | src/PacketSerial.c:160-163 | once no room is left, every later call is refused and changes nothing |
| Answers.CallAnswered | src/PacketSerial.c:160-167 | a call with more bytes than there is room for is refused and changes nothing; one without a zero at its end answers true and takes its bytes, zeros in place of those behind a zero |
| Answers.BadFrameAnswered | src/PacketSerial.c:174-187 | a frame that holds no packet answers false, costs its room, and leaves the reassembly buffer and the deliveries alone |
| Answers.PacketAnswered | src/PacketSerial.c:125-188 | the calls for a packet's frame answer true until the last, which answers as packet_parser does |
| Answers.LastPacketAsked | src/PacketSerial.c:139-147 | without an rx handler the last or only packet asks ProtoBuff.unmarshal about the reassembled bytes and zeros, 300 in all; its answer is that of the last call, the reassembly buffer is empty, and all of rx_buffer is room again exactly if it is true |
| Answers.MessageAsked | src/PacketSerial.c:125-188 | end to end without an rx handler, in any chunks: unmarshal is asked about what was held, the payload and zeros, its answer is that of the last call, and every other call answers true |
| Answers.MessageAnswered | src/PacketSerial.c:125-188 | with an rx handler every call of a message that fits answers true |
| EndToEnd.WholeFrame | src/PacketSerial.c:160-187 | a frame arriving whole between frames is parsed exactly if it fits in what remains, and refused with nothing changed otherwise |
| EndToEnd.SplitIndependent | src/PacketSerial.c:160-187 | every frame that fits, well-formed or not, has the outcome of its last chunk for every split into nonempty chunks; only the last chunk completes it |
| EndToEnd.ChunkingIndependent | src/PacketSerial.c:160-187 | a frame that fits and is `JunkFree` has the same outcome for every split and whatever uninitialised memory holds |
| Reception.JunkFreeExactly | src/PacketSerial.c:174-176 | the bytes handed to packet_parser are the same for all contents of the uninitialised tail of decoded_data_array if and only if the packet's announced end lies within what cobs_decode wrote or beyond the whole array; a length that is itself cut off counts as ended by a zero |
| Reception.JunkMatters | src/PacketSerial.c:174-176 | for every other frame, two contents of that tail that are told apart |
| Limits.JunkDecides | src/PacketSerial.c:174-177 | a packet's frame whose last byte was lost: with one content of uninitialised memory the rx handler is called, with another it is not |
| Limits.JunkMayNotShow | src/PacketSerial.c:174-177 | a frame that is not `JunkFree` and still fails whatever that memory holds, because no packet is as short |
| EndToEnd.PacketArrives | src/PacketSerial.c:125-188 | the frame of a packet that fits in the room that is left, in any chunks, hands exactly its data and flag to the reassembly and makes all of the buffer room again, unless the reassembled bytes are refused (`Accept`) |
| EndToEnd.PacketsArrive | src/PacketSerial.c:125-188 | of whatever valid packets arrive, in whatever chunks, from any state between frames with room for the first, up to an overrun and including it, exactly data and flags are taken in: neither the crc nor the sequence number matters |
| EndToEnd.MessageAfterLeftover | src/PacketSerial.c:125-145 | bytes left from an earlier message are delivered in front of the next one, because its first packet does not clear the reassembly buffer; room lost to failed frames comes back |
| EndToEnd.SessionArrives | src/PacketSerial.c:32-188 | any number of messages, one after the other in any chunks, from room for the first frame on: one delivery each, in order |
| EndToEnd.FrameLost | src/PacketSerial.c:125-145 | a lost frame other than the last goes unnoticed: the rx handler gets the message without that chunk |
| EndToEnd.LastFrameLost | src/PacketSerial.c:125-145 | if the last frame is lost nothing is delivered and the rest stays in the reassembly buffer |
| Transmission.ProcessAll | src/PacketSerial.c:154-188 | handing the receiver one chunk after the other is a run, answers as the run does, and overruns the reassembly buffer exactly if the run does |
| EndToEnd.MessageArrives | src/PacketSerial.c:32-188 | the frames of a nonempty message whose payload has at most 300 bytes, in any chunks, at a receiver with room for the first, call the rx handler exactly once, with the message and zeros, or without its last c bytes exactly if c divides a size of two chunks or more |
| Limits.MessageOverruns | src/PacketSerial.c:129-130 | a message, in any chunks, overruns the reassembly buffer if and only if what the buffer holds and the payload together are longer than 300 bytes |
| Limits.LongMessageOverruns | src/PacketSerial.c:129-130 | such a message: 301 bytes, sent with the sizes of the repository |
| Limits.NulsUseUpRoom | src/PacketSerial.c:160-187 | empty frames use up the room: n zero bytes bring the receiver to where it refuses everything |
| Limits.PacketNeeds | src/PacketSerial.c:125-128 | no packet decodes from fewer than nine bytes |
| Limits.LostForGood | src/PacketSerial.c:160-187 | with at most nine bytes held and left together nothing is delivered any more and the room never comes back, whatever arrives |
| Limits.RoomComesBack | src/PacketSerial.c:160-187 | between frames the room can come back if and only if more than nine bytes are left |
| Transmission.Transmit | src/PacketSerial.c:32-188 | send feeding process, each frame cut into pieces of its own, to a receiver between frames with room for the first: the reassembly buffer is overrun exactly if what it holds and the payload are longer than 300 bytes together; otherwise the rx handler gets both once, followed by zeros, and every call answers true, or without a handler unmarshal is asked about them and its answer is that of the last call |
| Transmission.Feed | src/PacketSerial.c:154-188 | feeding frames to a receiver is a run over their pieces |
| Transmission.Cut | src/PacketSerial.c:154-163 | the pieces of a frame are nonempty and make up the frame |

## Left out

- nanopb's callback, pointer and extension fields, malloc, custom streams, proto3 singular and fixed-count fields: they need code or configuration outside the repository's messages.
- Struct memory: messages are values, so padding, alignment and the sharing of memory between union members are not modelled; each member of a oneof has a slot of its own, and only the chosen one counts.
- Integer widths of sizes: size_t is unbounded here, and uint_fast8_t is taken to have eight bits.
- PbRoundTrip.DecodeInverts: submessages of 2^32 bytes or more, whose lengths do not fit the 32 bits the decoder reads, are excluded.
- PbRoundTrip.OtherTableReads: a field keeps its kind; numbers read as another kind (int32 as sint32 or bool) and members moved from one oneof to another are not related.
- PbDecoder.DecodeNoInit: of the field a failed decode was at only flag, count and shape are known, not the value, nor how far a submessage had come.
- PbDecoder.Decode: the same.
- WireRead.Varint32Exactly: for varints of 38 bytes and more, in which the bit position wraps around, there is one example only (WireRead.PositionWraps).
- Reception.JunkFreeExactly: it is about the bytes handed over; a frame whose bytes differ can still have the same outcome (Limits.JunkMayNotShow).
- PbEncoder.Encode: the struct must hold values of its C types, and no part may encode to 2^64 bytes or more.
- PbCommon.FieldIter.Find: extension placeholders, which the search skips, are not in the tables.
- GeneratorSize.MessageBound: symbolic sizes (submessages of other files), pointer and callback fields have no number to compare with; bytes fields are taken without struct padding.
- EndToEnd.MessageArrives: the rx handler is a list of deliveries, and an empty chunk, with which process reads before its buffer, is excluded.
- Transmission.ProcessAll: a packet that overruns the 300-byte reassembly buffer is undefined behaviour in C; it is flagged, with the condition for it, and nothing is said of what comes after.
- Receiver.Receiver.PacketParser: the write beyond the reassembly buffer is a flag.
- Receiver.Receiver.Process: an empty frame's array of length zero is taken as empty; without an rx handler the result of ProtoBuff.unmarshal is a parameter.
- DoubleConversion.RoundsToNearest: NaNs are excluded; DoubleConversion.NanStaysNan says when they survive.
- The handler registry and the union message lookup of src/ProtoBuff.c, pb_encode_nullterminated, pb_decode_delimited and the other one-line wrappers: easy members.
- The alternative Crc8 for 16-bit CPUs, and PB_WITHOUT_64BIT and PB_BUFFER_ONLY builds.
- Logging, hex dumps, error message texts, UART transfer and interrupts: no effect on the protocol.
- The rest of the generator: parsing of descriptors and printing of C code.
