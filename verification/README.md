# Verified models of a vendored protobuf codec and HTTP client

The repository vendors two libraries whose correctness the applications in it rely on: nanopb 0.3.9.9, a
schema-driven Protocol Buffers encoder and decoder in C, and Alamofire, an HTTP client in Swift. This project
models their hardest parts in Dafny and proves what they are for.

**The codec.** `Schema` gives the field tables and typed struct members, `Layout` and `Defaulting` say what a
struct is reset to given what its memory held, `EncoderSpec` and `DecoderSpec` say what bytes a struct becomes
and what bytes do to a struct, and `Merge` says, without mentioning bytes, what decoding an encoded message
must mean. `RoundTrip`, `Fidelity`, `Streams`, `Records`, `Concatenation`, `Arrays`, `Splittings` and
`MergingLaws` relate these. `WireFormat` is a reader of the encoding that knows neither field tables nor the
codec; against it `Emission` says what the encoder emits, and `Skipping` and `Reading` what the decoder skips and
accepts, byte by byte. `Soundness`, `Preservation`, `UnionTags`, `Absent`, `FieldFolds` and `Reencoding` say what a
decoded struct is good for, over arbitrary bytes and arbitrary memory. `OutputStream`, `Encoder`, `InputStream`,
`FieldIter`, `RequiredFields`, `Decoder` and `NegativeVarint` are the C code itself, over buffers, nested
length-limited streams, the wrap-around table iterator and the required-field bitset, each method proved to do
exactly what the specification says. `Codec` runs the two together. `Words`, `Varints` and `Wire` hold the arithmetic and the wire primitives.

**The authentication interceptor.** `AuthInterceptor` has the lock sections, as functions and as the class
that carries them out. `AuthProtocol`, `AuthRate`, `AuthProgress` and `AuthTermination` treat the concurrent
system: calls on any threads, the serial dispatch queue as a list of blocks, an authenticator that calls back
when it likes. A step is one hold of the lock. `AuthOutcomes` says what each call is completed with and why, and
`AuthRun` carries every step out on the object.

**Multipart forms.** `MultipartSpec` is the byte layout with a parser written from section 5.1.1 of RFC 2046;
`Multipart` has the in-memory encoder and the streaming writer over streams that deliver and accept chunks of
their own choosing, and `MultipartText` spells the form out in characters.

**Requests.** `RequestLifecycle` and `RequestPipeline` treat the request's state machine and its
response-serializer pipeline in the same way as the interceptor, `RequestReuse` treats requests that are used
again after they have finished, `RequestCompletions` the completions in every run, and `RequestRun` carries every
step out on the object.

What the proofs bring out about the code:

- Nothing initialises the elements of a fixed-count array: the reset stores a zero count, and as such an array
  has no count, the zero falls on its first word. So what was decoded need not be encodable:
  `DecodedReencodes` proves it is exactly when every such array, at every depth, was filled by the stream or
  held encodable elements, and `StaleStringDoesNotReencode` is an empty stream for which it is not.
- Concatenated messages merge, as `Shoee/Pods/nanopb/pb_decode.h:74-75` promises of decoding without
  initialising, except around fixed-count arrays: `ConcatenationExactly` gives the exact condition.
- A message comes back from encoding and decoding exactly when the zeros that the encoder leaves out are the
  defaults the decoder puts in (`MessageRoundTrip`); `ZeroComesBackAsDefault` is a zero that comes back as 5.
- An empty field table "finds" its terminator when the stream carries field number 0 (a tag word between 1 and
  7), and decodes a bool for it; `ReadOne` keeps that branch, and `FieldZeroBreaksEmptyTable` is an unknown
  field that for this reason is not skipped.
- Of an int field smaller than 64 bits the decoder looks only at the low 32 bits of the number on the wire
  (`IntegerExactly`); every other number that a field cannot hold is refused.
- Decoding without initialising fails where a union's which-field holds a tag the table does not have
  (`UnknownTagFails`), which after a reset cannot be (`KnownAfterReset`).
- The 32-bit varint decoder counts bits in eight bits, so from the 38th byte on groups are stored over earlier
  ones: `BitCounterWraps` is a varint of 38 bytes that it reads wrongly. `DecodeVarint32Meaning` proves that a
  varint is read right exactly when the groups stored again add no bit.
- `finished` is not terminal, although `canTransitionTo` forbids every step from it: appending to a finished
  request resumes it, and the `.cancel` response disposition cancels it. `TransitionsExactly` proves these are
  the only steps that break the table.
- A serializer appended between the moment the pipeline finds none left and the moment it clears its lists is
  silently discarded; `FirstClear` and `GoneForever` say exactly which, and `LostAtFirstClear` is a run. After processing has finished once,
  an append can also start one serializer twice; `DisciplineIsExact` says exactly when an append or a
  `finish` does harm.
- If an authenticator calls back twice for one refresh, no call is lost or completed twice, but two refreshes
  can be pending at once: exactly when the second callback comes while another refresh is on.
- The interceptor cannot go on by itself for ever, unless credentials go on requiring a refresh as soon as they
  have been refreshed: `EveryRunCompletes` bounds every run by the number of such demands, and `EndlessDemand`
  shows that without a bound on these there is none.
- The streaming multipart writer stops without an error when its output has no space left; the file then holds
  a prefix of the form.

## Model

| member | source | states |
|---|---|---|
| `Codec.EncodeThenDecode` | Shoee/Pods/nanopb/pb_encode.c:528-550 | encoding into a real buffer succeeds iff the message fits the limit; decoding what was written into a struct of any contents then succeeds and gives the message back, exactly when its unencoded zeros are the defaults; bytes past the limit are untouched |
| `Emission.EncodingShows` | Shoee/Pods/nanopb/pb_encode.c:341-427 | for every table and encodable struct, a reader that knows only the encoding finds in its bytes exactly the records that show it: in the order of the table, under each field's number and its type's wire type, with the payload of each value written out, submessages at every depth; nothing for what is absent or empty |
| `Emission.TaggedShown` | Shoee/Pods/nanopb/pb_encode.c:675-707 | one value is one record, under wire type 0, 1, 2 or 5 as its type says |
| `Emission.Int32Example` | Shoee/Pods/nanopb/pb_encode.c:675-707 | field 1, an int32 of 150, is 08 96 01 |
| `Emission.EmptyExactly` | Shoee/Pods/nanopb/pb_encode.c:240-338 | the default check holds exactly of zero, the empty string, no bytes, and a message that would itself show nothing |
| `Emission.EncodesExactly` | Shoee/Pods/nanopb/pb_encode.c:147-236 | a struct of its table's shape is refused exactly when some byte field or array in it, at any depth, is too long |
| `Skipping.EncodingUnknown` | Shoee/Pods/nanopb/pb_decode.c:966-1019 | a whole encoding is skipped by any table that shares no field number with its own, and leaves the struct as it is |
| `Fidelity.MessageRoundTrip` | Shoee/Pods/nanopb/pb_decode.c:934-1096 | for every table and well-formed message and whatever the struct held, decoding its encoding succeeds and consumes every byte; the struct equals the message, up to absent optionals, inactive union members and string tails, exactly when the message's unencoded zeros are the defaults of their fields |
| `Fidelity.WithoutDefaults` | Shoee/Pods/nanopb/pb_encode.c:240-338 | where no field without presence has an explicit default, as in proto3, every message meets that condition |
| `Fidelity.ZeroComesBackAsDefault` | Shoee/Pods/nanopb/pb_encode.c:240-338 | a field without presence whose default is 5, holding 0, is encoded as nothing and comes back as 5 |
| `RoundTrip.EncodeDecode` | Shoee/Pods/nanopb/pb_decode.c:934-1096 | decoding an encoded message is the reference merge of the message into what the struct is reset to, with no byte left |
| `RoundTrip.MessageMerges` | Shoee/Pods/nanopb/pb_decode.c:1525-1547 | decoding an encoded message into any struct with room for it, and no unknown which-tag where an alternative comes in, is the recursive field-by-field merge |
| `RoundTrip.EncodableSucceeds` | Shoee/Pods/nanopb/pb_encode.c:341-427 | a struct its table describes never makes the encoder fail, at any nesting depth |
| `RoundTrip.OneofMerges` | Shoee/Pods/nanopb/pb_decode.c:466-478 | a submessage alternative is merged into only while the same alternative was set before; any other alternative starts from zeroed memory, reset |
| `RoundTrip.PackedRoundTrip` | Shoee/Pods/nanopb/pb_decode.c:424-453 | a packed run stores its elements at consecutive positions and ends at the position after them |
| `RoundTrip.ScalarRoundTrip` | Shoee/Pods/nanopb/pb_decode.c:1334-1445 | every packable type reads back every value its C type holds, whatever bytes follow |
| `RoundTrip.BlobRoundTrip` | Shoee/Pods/nanopb/pb_decode.c:1447-1523 | strings come back up to their terminator, bytes and fixed-length bytes unchanged |
| `Fidelity.MergeAt` | Shoee/Pods/nanopb/pb_decode.c:466-478 | a merge acts on each struct member through its own field only, although union alternatives share the member |
| `Fidelity.OtherAlternative` | Shoee/Pods/nanopb/pb_decode.c:466-478 | an alternative that is not the incoming one survives only if the incoming message sets no alternative |
| `Fidelity.FreshMergeIsSame` | Shoee/Pods/nanopb/pb_decode.c:845-932 | merging a message into defaults gives the message back as far as a reader of the struct can tell |
| `Streams.ConcatenationIsMerge` | Shoee/Pods/nanopb/pb_decode.c:934-1082 | decoding `a ++ b` in one call gives what decoding `a` then `b` gives, when `a` fills no fixed-count array |
| `Concatenation.ConcatenationExactly` | Shoee/Pods/nanopb/pb_decode.c:983-1019 | with fixed-count arrays too: by a scan of the record tags, the one call agrees exactly when the last such array of the first stream is not the first one of the second; otherwise it fails |
| `Concatenation.Overflows` | Shoee/Pods/nanopb/pb_decode.c:983-1006 | a stream that still needs to fill an array fails when the counter is already at the end |
| `Arrays.EncodingsConcatenate` | Shoee/Pods/nanopb/pb_decode.c:934-1082 | two encodings back to back decode to the merge of the second message into the first |
| `Arrays.FixedCountDoesNotConcatenate` | Shoee/Pods/nanopb/pb_decode.c:983-1006 | a concrete pair of streams that decode one after the other but not as one |
| `Arrays.MixedRecords` | Shoee/Pods/nanopb/pb_decode.c:424-464 | any mixture of packed runs and single elements appends its elements in order if they fit, and fails if they do not |
| `Arrays.PackedAndUnpackedAgree` | Shoee/Pods/nanopb/pb_decode.c:424-464 | two splittings of the same elements into runs and single records give the same array, count and outcome; they decode exactly when the elements fit |
| `Splittings.ArrayGetsItsElements` | Shoee/Pods/nanopb/pb_decode.c:424-464 | any stream that decodes, whatever other records it has, appends to a repeated scalar field exactly the elements of that field's own records in order, and they fit |
| `Splittings.SplittingsAgree` | Shoee/Pods/nanopb/pb_decode.c:424-464 | two streams whose records of the field have the same elements, split and interleaved with other records in any way, leave the same array |
| `Streams.UnknownFieldTransparent` | Shoee/Pods/nanopb/pb_decode.c:966-1019 | inserting an unknown field at any field boundary, also inside a fixed-count array, changes neither the outcome nor the struct |
| `Skipping.SkipExactly` | Shoee/Pods/nanopb/pb_decode.c:278-331 | skipping succeeds exactly under wire type 0 for a terminated varint, 1 for 8 bytes, 2 for a length and as many bytes, 5 for 4 bytes, and consumes just these |
| `Skipping.ZeroTerminates` | Shoee/Pods/nanopb/pb_decode.c:298-319 | a zero byte at a field boundary ends the message there, whatever follows |
| `Streams.UnknownFieldForms` | Shoee/Pods/nanopb/pb_decode.c:278-331 | what counts as an unknown field: under the tag words 8 * number + 0, 1, 2 and 5 any terminated varint, 8 raw bytes, a length with as many bytes, 4 raw bytes; field number 0 too unless the table is empty |
| `Streams.FieldZeroBreaksEmptyTable` | Shoee/Pods/nanopb/pb_decode.c:966-981 | four raw bytes of field number 0 that every other table skips make the empty table fail |
| `Streams.LoopSegment` | Shoee/Pods/nanopb/pb_decode.c:952-1030 | a run of whole fields does the same whatever follows it |
| `Streams.DecodeFieldAppend` | Shoee/Pods/nanopb/pb_decode.c:406-483 | a decoded field reads only its own bytes |
| `MergingLaws.LastOneWins` | Shoee/Pods/nanopb/pb_decode.c:406-483 | of a field that is not repeated, or of a union, the last record alone decides, whatever came before |
| `MergingLaws.SubmessagesMerge` | Shoee/Pods/nanopb/pb_decode.c:1525-1547 | two records of a submessage decode as one record with both payloads, whatever its struct held |
| `Reading.IntegerExactly` | Shoee/Pods/nanopb/pb_decode.c:1345-1428 | for every byte string: int, uint and sint fields accept exactly the varints of at most ten bytes whose number their C type holds, and store it; of an int smaller than 64 bits the low 32 bits of the number count |
| `Reading.BoolExactly` | Shoee/Pods/nanopb/pb_decode.c:1334-1343 | bool fields store whether the number is not zero |
| `Reading.FixedExactly` | Shoee/Pods/nanopb/pb_decode.c:1430-1445 | fixed fields take four or eight bytes, least significant first |
| `Reading.BlobExactly` | Shoee/Pods/nanopb/pb_decode.c:1447-1570 | strings, bytes and fixed-length bytes are accepted exactly if their length fits the member with its terminator or count, and are stored unchanged; an empty fixed-length field stands for zeros |
| `Preservation.DecodeSound` | Shoee/Pods/nanopb/pb_decode.c:406-483 | for every byte string: after a successful decode counts are within their arrays, strings terminated, integers in range, at every depth, the elements of fixed-count arrays too if they were so before |
| `Absent.AbsentHoldsDefault` | Shoee/Pods/nanopb/pb_decode.c:845-932 | after pb_decode a required or optional field without a record in the bytes holds its declared default, or zero where none is declared, and an optional one is marked absent |
| `Absent.AbsentAtEveryDepth` | Shoee/Pods/nanopb/pb_decode.c:845-932 | the same inside every submessage and array element outside unions, of the payloads that went into it |
| `Absent.AlternativeStartsAtRest` | Shoee/Pods/nanopb/pb_decode.c:466-478 | and inside a submessage that becomes the alternative of a union |
| `Absent.ResetAtRest` | Shoee/Pods/nanopb/pb_decode.c:917-932 | a reset leaves every member at its default, at every depth, whatever the struct held |
| `Absent.FixedArrayReset` | Shoee/Pods/nanopb/pb_decode.c:863-870 | a reset clears the first four bytes of a fixed-count array and nothing else of it |
| `UnionTags.UnknownTagFails` | Shoee/Pods/nanopb/pb_decode.c:1137-1168 | a record of a union whose which-field holds an unknown tag fails, whatever it holds |
| `UnionTags.KnownAfterReset` | Shoee/Pods/nanopb/pb_decode.c:1137-1168 | after a reset no union of the message has an unknown tag at any field boundary, whatever the struct held and whatever was decoded |
| `Soundness.ResetSound` | Shoee/Pods/nanopb/pb_decode.c:845-932 | a struct of any contents is sound once reset, up to the elements of fixed-count arrays, and wholly if those were sound |
| `Soundness.ZeroStructSound` | Shoee/Pods/nanopb/pb_decode.c:466-478 | memory set to zero is wholly sound |
| `Soundness.SoundIsEncodable` | Shoee/Pods/nanopb/pb_encode.c:341-427 | a wholly sound struct can be encoded |
| `Reencoding.DecodedReencodes` | Shoee/Pods/nanopb/pb_encode.c:528-550 | whatever the struct held and whatever the bytes, what pb_decode leaves can be encoded exactly when every fixed-count array, at every depth, was filled by the stream or held encodable elements; while lengths are below 2^32 the encoding decodes to the same message exactly when, besides, unencoded zeros are defaults. What is held comes from a scan of the records, but for arrays of submessages that are filled more than once: there it is what decoding the earlier fillings left |
| `Reencoding.StructExact` | Shoee/Pods/nanopb/pb_decode.c:934-1082 | the same for any struct that is sound up to those elements and any number of streams decoded into it one after the other |
| `Reencoding.SoundStructReencodes` | Shoee/Pods/nanopb/pb_decode.c:1084-1096 | a struct that was cleared, or is wholly sound once reset, meets the condition for every stream |
| `Reencoding.StaleStringDoesNotReencode` | Shoee/Pods/nanopb/pb_decode.c:863-870 | an empty stream leaves an unterminated string of the caller's in a fixed-count array; what is encoded from it does not decode |
| `FieldFolds.LoopFolds` | Shoee/Pods/nanopb/pb_decode.c:952-1030 | over a whole stream the member of a field outside unions goes through exactly that field's own records, in order |
| `FieldFolds.AllFold` | Shoee/Pods/nanopb/pb_decode.c:1525-1547 | so it does over several payloads merged one after the other; a fixed-count array met at all ends full |
| `Records.SeenIsScanned` | Shoee/Pods/nanopb/pb_decode.c:1021-1026 | a bit is set exactly when the bytes have a record of the required field it stands for |
| `Records.RequiredFieldsDecide` | Shoee/Pods/nanopb/pb_decode.c:1032-1079 | decoding succeeds exactly when every record decodes, the last fixed-count array is full, and every required field with fewer than 64 required fields before it has a record in the bytes |
| `Varints.DecodeVarintMeaning` | Shoee/Pods/nanopb/pb_decode.c:255-275 | the 64-bit decoder accepts exactly the varints of at most ten bytes and returns their groups modulo 2^64 |
| `Varints.DecodeVarint32Meaning` | Shoee/Pods/nanopb/pb_decode.c:187-252 | a success of the 32-bit decoder, on a varint of any length, has consumed exactly that varint, and has returned the number its groups spell modulo 2^32 if and only if the groups that the wrapped bit counter stores again (from the 38th on) add no bit to that number |
| `Varints.DecodeVarint32Exactly` | Shoee/Pods/nanopb/pb_decode.c:187-252 | on every byte string: the 32-bit decoder accepts exactly the varints whose last byte, at bit position 28, is below 16 and whose groups at positions from 32 on are empty or continue the sign of what has been stored |
| `Varints.DecodeVarint32Short` | Shoee/Pods/nanopb/pb_decode.c:187-252 | up to 37 bytes that is: a fifth byte, if last, below 16, and later groups empty or continuing bit 31 of the number; the number itself is returned |
| `Varints.BitCounterWraps` | Shoee/Pods/nanopb/pb_decode.c:209-241 | 37 bytes 0x80 and a 0x01, the number 2^259, are read as 8 and not as 0 |
| `Varints.VarintDecodersAgree` | Shoee/Pods/nanopb/pb_decode.c:187-275 | where both decoders accept, they consume the same bytes and agree modulo 2^32 |
| `Varints.VarintAtMostTenBytes` | Shoee/Pods/nanopb/pb_encode.c:608-628 | no 64-bit value overruns the ten-byte buffer |
| `Varints.VarintRoundTrip` | Shoee/Pods/nanopb/pb_encode.c:608-628 | the 64-bit decoder inverts the encoder on every value and suffix |
| `Varints.Varint32RoundTrip` | Shoee/Pods/nanopb/pb_decode.c:187-247 | the 32-bit decoder inverts the encoder below 2^32 |
| `Varints.Varint32AcceptsNegative` | Shoee/Pods/nanopb/pb_decode.c:217-226 | the ten-byte form of a negative int32 passes the 32-bit decoder's sign-extension check |
| `NegativeVarint.Turn` | Shoee/Pods/nanopb/pb_encode.c:589-602 | one turn of the compensation loop divides the sign-extended number by 128 inside a 32-bit word |
| `NegativeVarint.FillNegative` | Shoee/Pods/nanopb/pb_encode.c:582-604 | the compensation loop writes the encoding of the 64-bit sign extension within its buffer |
| `NegativeVarint.WriteNegativeVarint` | Shoee/Pods/nanopb/pb_encode.c:582-606 | it emits the same ten bytes as the 64-bit form |
| `Wire.ZigzagRoundTrip` | Shoee/Pods/nanopb/pb_encode.c:630-639 | the zig-zag code stays in 64 bits, is inverted by the decoder, and maps small magnitudes to small codes |
| `Wire.FixedRoundTrip` | Shoee/Pods/nanopb/pb_encode.c:641-666 | little-endian fixed words read back |
| `Wire.TagRoundTrip` | Shoee/Pods/nanopb/pb_decode.c:298-319 | every field number below 2^29 survives the tag word and never reads as the zero terminator |
| `Wire.DelimitedRoundTrip` | Shoee/Pods/nanopb/pb_decode.c:372-385 | a delimited payload is cut out exactly, whatever follows |
| `FieldIter.OffsetsRecovered` | Shoee/Pods/nanopb/pb.h:401-405 | the offsets the table's deltas add up to are the struct offsets the table was generated from |
| `FieldIter.AddressesAreSlots` | Shoee/Pods/nanopb/pb_common.c:30-85 | two fields have the same address exactly when they are alternatives of one union |
| `FieldIter.Iter.constructor` | Shoee/Pods/nanopb/pb_common.c:8-28 | a begun iterator satisfies the position invariant |
| `FieldIter.Iter.Begin` | Shoee/Pods/nanopb/pb_common.c:8-28 | the first position, its addresses, and whether the table has a field |
| `FieldIter.Iter.Next` | Shoee/Pods/nanopb/pb_common.c:30-85 | advances one field or wraps; the address stays the one the deltas imply and required fields stay counted |
| `FieldIter.Iter.Find` | Shoee/Pods/nanopb/pb_common.c:87-104 | terminates; true iff a field has the tag; on both outcomes the address and the required count are those of the position |
| `RequiredFields.SetBit` | Shoee/Pods/nanopb/pb_decode.c:1021-1026 | setting a bit of a word records one field and no other |
| `RequiredFields.MarkSeen` | Shoee/Pods/nanopb/pb_decode.c:1021-1026 | the two-word bitset represents the set with the new field added |
| `RequiredFields.CheckRequired` | Shoee/Pods/nanopb/pb_decode.c:1058-1079 | the word comparison passes iff every tracked required field was seen, for any number of them |
| `OutputStream.OStream.Sizing` | Shoee/Pods/nanopb/pb_encode.c:567-576 | a sizing stream starts empty and owns no caller memory |
| `OutputStream.OStream.FromBuffer` | Shoee/Pods/nanopb/pb_encode.c:86-101 | a buffer stream over the caller's bytes with a limit |
| `OutputStream.OStream.Write` | Shoee/Pods/nanopb/pb_encode.c:103-124 | exact effect of a write: refused iff it would pass the limit, otherwise appended; a sizing stream counts modulo 2^64 |
| `OutputStream.OStream.BufWrite` | Shoee/Pods/nanopb/pb_encode.c:74-84 | copies the bytes at the write position and touches nothing else |
| `OutputStream.WroteThen` | Shoee/Pods/nanopb/pb_encode.c:103-124 | emissions compose to their concatenation |
| `Encoder.FillVarint` | Shoee/Pods/nanopb/pb_encode.c:618-626 | the group loop writes the varint within ten bytes |
| `Encoder.WriteVarint` | Shoee/Pods/nanopb/pb_encode.c:608-628 | emits the varint or nothing |
| `Encoder.WriteTag` | Shoee/Pods/nanopb/pb_encode.c:669-673 | emits the tag word |
| `Encoder.WriteString` | Shoee/Pods/nanopb/pb_encode.c:709-715 | emits length and bytes |
| `Encoder.FillFixed` | Shoee/Pods/nanopb/pb_encode.c:641-666 | the byte stores are the little-endian word |
| `Encoder.WriteScalar` | Shoee/Pods/nanopb/pb_encode.c:769-850 | emits each packable type's encoding |
| `Encoder.BoundedStrLen` | Shoee/Pods/nanopb/pb_encode.c:873-897 | finds the terminator inside the buffer |
| `Encoder.WriteValue` | Shoee/Pods/nanopb/pb_encode.c:769-912 | emits the value of any field type without its tag |
| `Encoder.WriteSubmessage` | Shoee/Pods/nanopb/pb_encode.c:717-765 | sizing pass, length, contents: emits the delimited message |
| `Encoder.WriteContents` | Shoee/Pods/nanopb/pb_encode.c:740-764 | when the size is the contents' size, the substream's limit never bites and the changed-size error is unreachable |
| `Encoder.EncodeMessage` | Shoee/Pods/nanopb/pb_encode.c:528-550 | emits exactly the specified bytes of the message on any stream |
| `Encoder.WriteField` | Shoee/Pods/nanopb/pb_encode.c:341-427 | emits a field by its kind: presence, defaults, arrays, the active alternative |
| `Encoder.CheckDefaultValue` | Shoee/Pods/nanopb/pb_encode.c:240-338 | the default check agrees with its specification on every value, recursively |
| `Encoder.WriteArray` | Shoee/Pods/nanopb/pb_encode.c:147-236 | refuses too many elements, emits nothing for none, packs what can be packed |
| `Encoder.WriteTaggedItems` | Shoee/Pods/nanopb/pb_encode.c:208-233 | emits the elements one record each |
| `Encoder.WritePacked` | Shoee/Pods/nanopb/pb_encode.c:163-205 | emits a packed record with the length of its elements |
| `Encoder.PackedSize` | Shoee/Pods/nanopb/pb_encode.c:169-189 | the precomputed size is the size of the elements |
| `Encoder.GetEncodedSize` | Shoee/Pods/nanopb/pb_encode.c:567-576 | returns exactly the number of bytes encoding writes |
| `Encoder.EncodeToBuffer` | Shoee/Pods/nanopb/pb_encode.c:528-550 | succeeds iff the limit admits that size, writes exactly those bytes, never past the limit |
| `InputStream.IStream.ReadByte` | Shoee/Pods/nanopb/pb_decode.c:141-157 | the first byte of the window, or failure without moving |
| `InputStream.IStream.ReadBytes` | Shoee/Pods/nanopb/pb_decode.c:102-137 | the first bytes of the window or failure |
| `InputStream.IStream.SkipBytes` | Shoee/Pods/nanopb/pb_decode.c:102-137 | moves past bytes inside the window or fails |
| `InputStream.IStream.ReadVarint32` | Shoee/Pods/nanopb/pb_decode.c:187-247 | the loop is the specified 32-bit decoder and stays in its window |
| `InputStream.IStream.ReadVarint` | Shoee/Pods/nanopb/pb_decode.c:255-275 | the loop is the specified 64-bit decoder and stays in its window |
| `InputStream.IStream.SkipOneField` | Shoee/Pods/nanopb/pb_decode.c:278-331 | skips one field of the wire type |
| `InputStream.IStream.ReadTag` | Shoee/Pods/nanopb/pb_decode.c:298-319 | a tag, the end of the message (also by a zero tag), or an error |
| `InputStream.IStream.MakeSubstream` | Shoee/Pods/nanopb/pb_decode.c:372-385 | the substream is exactly the payload and is strictly shorter |
| `InputStream.IStream.CloseSubstream` | Shoee/Pods/nanopb/pb_decode.c:387-400 | the parent continues right after the substream however much of it was read |
| `Decoder.ReadScalar` | Shoee/Pods/nanopb/pb_decode.c:1334-1445 | reads each packable type with its range checks |
| `Decoder.ReadBlob` | Shoee/Pods/nanopb/pb_decode.c:1447-1570 | reads strings, bytes and fixed-length bytes with their capacity checks |
| `Decoder.ReadSubmessage` | Shoee/Pods/nanopb/pb_decode.c:1525-1547 | merges into the stored submessage, or into a new array entry's old memory, reset; the parent ends after the payload |
| `Decoder.ReadField` | Shoee/Pods/nanopb/pb_decode.c:406-483 | stores exactly the decoded slot and changes no other |
| `Decoder.ReadElements` | Shoee/Pods/nanopb/pb_decode.c:424-464 | a packed run or one element at the count |
| `Decoder.ReadPackedRun` | Shoee/Pods/nanopb/pb_decode.c:436-453 | the packed loop: elements in order, leftover bytes mean overflow |
| `Decoder.TrackFixedCount` | Shoee/Pods/nanopb/pb_decode.c:983-1006 | recognises a fixed-count array by its addresses and refuses to leave one unfinished |
| `Decoder.ReleaseUnionField` | Shoee/Pods/nanopb/pb_decode.c:1137-1168 | before a union field is decoded the iterator finds the alternative set before and comes back; it fails iff the table has no such field |
| `Decoder.ReadKnown` | Shoee/Pods/nanopb/pb_decode.c:983-1029 | one turn of the loop for a field of the table |
| `Decoder.ReadOne` | Shoee/Pods/nanopb/pb_decode.c:966-1029 | one turn of the loop for any tag, the terminator of an empty table included |
| `Decoder.CountRequired` | Shoee/Pods/nanopb/pb_decode.c:1044-1056 | the number of required fields from wherever the iterator stopped |
| `Decoder.CheckComplete` | Shoee/Pods/nanopb/pb_decode.c:1032-1079 | the final checks pass iff the last fixed-count array is full and every tracked required field was seen |
| `Decoder.ReadMessageNoInit` | Shoee/Pods/nanopb/pb_decode.c:934-1082 | on any bytes: terminates, stays in its window, succeeds iff the specification does, and leaves exactly the specified struct |
| `Decoder.SetToDefaults` | Shoee/Pods/nanopb/pb_decode.c:917-932 | every member gets its default, which depends on what the struct held |
| `Decoder.FieldDefault` | Shoee/Pods/nanopb/pb_decode.c:845-914 | the default of one field, submessages recursively; array elements stay, but for the zero count stored over a fixed-count array |
| `Decoder.ReadMessage` | Shoee/Pods/nanopb/pb_decode.c:1084-1096 | resetting and decoding, into a struct of any contents, leaves exactly what the specification says of those contents and bytes |
| `AuthProtocol.NoCallLostOrRepeated` | Shoee/Pods/Alamofire/Source/AuthenticationInterceptor.swift:249-401 | in every run each adapt or retry call is in exactly one place, and no completion is called twice or for a call not made, re-submission and repeated callbacks included |
| `AuthProtocol.RefreshSafety` | Shoee/Pods/Alamofire/Source/AuthenticationInterceptor.swift:250-394 | in every run, at every lock release nothing waits unless a refresh is on, and none is on without one pending; at most one is pending, exactly while isRefreshing holds, throughout the run if and only if no callback for a completed refresh comes while another is on |
| `AuthProtocol.SafetyExactly` | Shoee/Pods/Alamofire/Source/AuthenticationInterceptor.swift:341-350 | that equivalence from any state with at most one refresh pending |
| `AuthProtocol.AllCompletedAtRest` | Shoee/Pods/Alamofire/Source/AuthenticationInterceptor.swift:369-401 | a run that has come to rest has completed every call exactly once |
| `AuthOutcomes.OutcomesHaveReasons` | Shoee/Pods/Alamofire/Source/AuthenticationInterceptor.swift:249-401 | in every run each outcome goes back to its reason: retry to a request made with another credential or a successful refresh while it waited, doNotRetry to a failure of another kind, a refresh error to a failed callback while the call waited, an excessive refresh to one refused while it waited or entered, a credential to its being the one stored with no refresh on and none required, a missing one to there being none |
| `AuthOutcomes.WaitsSince` | Shoee/Pods/Alamofire/Source/AuthenticationInterceptor.swift:249-324 | what waits has entered by the lock section of retry, or of adapt, earlier in the run |
| `AuthOutcomes.CredentialStored` | Shoee/Pods/Alamofire/Source/AuthenticationInterceptor.swift:369-370 | the credential stored is the last one set by the application or delivered by a refresh |
| `AuthOutcomes.RefreshesStored` | Shoee/Pods/Alamofire/Source/AuthenticationInterceptor.swift:329-352 | the authenticator is asked to refresh only credentials that were stored at some moment of the run |
| `AuthOutcomes.SuccessInOrder` | Shoee/Pods/Alamofire/Source/AuthenticationInterceptor.swift:369-385 | after a successful refresh, while none is required, the adapts that waited get the credential and the requests are retried, in the order in which they came |
| `AuthOutcomes.FailureInOrder` | Shoee/Pods/Alamofire/Source/AuthenticationInterceptor.swift:387-401 | after a failed one every call that waited is failed, in that order |
| `AuthOutcomes.QueueInOrder` | Shoee/Pods/Alamofire/Source/AuthenticationInterceptor.swift:341-401 | blocks run in the order in which they were dispatched: new ones go to the end, and only the first one is worked on |
| `AuthOutcomes.ExcessiveExactly` | Shoee/Pods/Alamofire/Source/AuthenticationInterceptor.swift:354-367 | a refresh is refused exactly when there is a window and at least maximumAttempts refreshes have started in it |
| `AuthOutcomes.StampsExactly` | Shoee/Pods/Alamofire/Source/AuthenticationInterceptor.swift:329-352 | every refresh that is started, and nothing else, leaves a stamp, the uptime read when it was started |
| `AuthProgress.EveryCallCanComplete` | Shoee/Pods/Alamofire/Source/AuthenticationInterceptor.swift:249-401 | from every state a run reaches there is a continuation without new calls, one callback per refresh, that completes every call exactly once |
| `AuthTermination.EveryRunCompletes` | Shoee/Pods/Alamofire/Source/AuthenticationInterceptor.swift:249-401 | from every state a run reaches, every continuation without new calls, credentials set from outside or repeated callbacks, in any order and with any answers, ends within a bound computed from the state and the number of times a credential requires a refresh; once it has ended every call has been completed exactly once |
| `AuthTermination.StepCosts` | Shoee/Pods/Alamofire/Source/AuthenticationInterceptor.swift:249-401 | every step the system takes by itself lowers that bound |
| `AuthTermination.EndedIsQuiescent` | Shoee/Pods/Alamofire/Source/AuthenticationInterceptor.swift:249-401 | where no such step is possible no thread, block or refresh is left |
| `AuthTermination.EndlessDemand` | Shoee/Pods/Alamofire/Source/AuthenticationInterceptor.swift:329-385 | without a refresh window, if each refreshed credential requires a refresh again, runs of any length leave one call waiting |
| `AuthProgress.ComesToRest` | Shoee/Pods/Alamofire/Source/AuthenticationInterceptor.swift:369-401 | threads, queue and a pending refresh can always be run down to nothing |
| `AuthRate.RefreshRate` | Shoee/Pods/Alamofire/Source/AuthenticationInterceptor.swift:329-367 | any closed interval of the window's length holds at most maximumAttempts refreshes, though check and stamp read the clock separately |
| `AuthRate.StampBounded` | Shoee/Pods/Alamofire/Source/AuthenticationInterceptor.swift:354-367 | the check made earlier covers every interval the later stamp falls in |
| `AuthProtocol.StepConserves` | Shoee/Pods/Alamofire/Source/AuthenticationInterceptor.swift:249-401 | one step moves a call between places and never copies or drops it |
| `AuthProtocol.StepSurplus` | Shoee/Pods/Alamofire/Source/AuthenticationInterceptor.swift:318-351 | every step keeps the waiting lists empty without a refresh, and only a callback while a refresh is on changes how many are pending beyond it |
| `AuthProtocol.ResubmitConserves` | Shoee/Pods/Alamofire/Source/AuthenticationInterceptor.swift:381-384 | re-submitting a deferred adapt moves it to a completion or back to the waiting list |
| `AuthProtocol.DoubleCallbackBreaksSafety` | Shoee/Pods/Alamofire/Source/AuthenticationInterceptor.swift:341-350 | a run in which one refresh calling back twice leaves two refreshes pending |
| `AuthInterceptor.Interceptor.IsRefreshExcessive` | Shoee/Pods/Alamofire/Source/AuthenticationInterceptor.swift:354-367 | the loop counts the stamps since the start of the window |
| `AuthInterceptor.Interceptor.Refresh` | Shoee/Pods/Alamofire/Source/AuthenticationInterceptor.swift:329-352 | the new guarded state and the block put on the queue |
| `AuthInterceptor.Interceptor.AdaptLocked` | Shoee/Pods/Alamofire/Source/AuthenticationInterceptor.swift:249-273 | the lock section of adapt |
| `AuthInterceptor.Interceptor.RetryLocked` | Shoee/Pods/Alamofire/Source/AuthenticationInterceptor.swift:318-324 | the last lock section of retry |
| `AuthInterceptor.Interceptor.HandleRefreshSuccess` | Shoee/Pods/Alamofire/Source/AuthenticationInterceptor.swift:369-385 | stores the credential and moves every waiting call to one block |
| `AuthInterceptor.Interceptor.HandleRefreshFailure` | Shoee/Pods/Alamofire/Source/AuthenticationInterceptor.swift:387-401 | moves every waiting call to one failing block |
| `AuthRun.Session.RunHeadBlock` | Shoee/Pods/Alamofire/Source/AuthenticationInterceptor.swift:369-401 | one step of the block at the head of the queue, carried out on the object, is that step of the protocol |
| `AuthRun.Session.Do` | Shoee/Pods/Alamofire/Source/AuthenticationInterceptor.swift:249-401 | every step carried out on the object is that step of the protocol |
| `AuthRun.RunSession` | Shoee/Pods/Alamofire/Source/AuthenticationInterceptor.swift:249-401 | under any interleaving the object has called no completion twice, and each exactly once when nothing is left running |
| `MultipartSpec.FormRoundTrip` | Shoee/Pods/Alamofire/Source/MultipartFormData.swift:64-77 | with one-line headers and a boundary without CR, the parser recovers the list of parts exactly when no body contains the delimiter |
| `MultipartText.FormAsText` | Shoee/Pods/Alamofire/Source/MultipartFormData.swift:64-77 | the encoded form in characters: each part a line `--` boundary, a line `name: value` for each header, an empty line and the body, parts separated by line breaks, and a last line `--` boundary `--` |
| `MultipartSpec.FormsDistinct` | Shoee/Pods/Alamofire/Source/MultipartFormData.swift:322-338 | different forms have different encodings |
| `MultipartSpec.FindAtEnd` | Shoee/Pods/Alamofire/Source/MultipartFormData.swift:64-77 | a delimiter cannot straddle a body and the delimiter after it |
| `MultipartSpec.HeadersRoundTrip` | Shoee/Pods/Alamofire/Source/MultipartFormData.swift:394-400 | header lines parse back to names and values |
| `MultipartSpec.PartsRoundTrip` | Shoee/Pods/Alamofire/Source/MultipartFormData.swift:375-392 | the parts after any delimiter parse back exactly when their bodies are free of it |
| `Multipart.EmittedIsForm` | Shoee/Pods/Alamofire/Source/MultipartFormData.swift:327-337 | flags on the first and last part frame the whole form |
| `Multipart.FormData.Append` | Shoee/Pods/Alamofire/Source/MultipartFormData.swift:307-310 | adds one part at the end |
| `Multipart.FormData.SetBoundaryFlags` | Shoee/Pods/Alamofire/Source/MultipartFormData.swift:329-330 | flags exactly the first and the last part |
| `Multipart.FormData.EncodeBodyStream` | Shoee/Pods/Alamofire/Source/MultipartFormData.swift:402-431 | the whole stream in whatever chunks, or an error iff its length is not the declared one |
| `Multipart.FormData.EncodePart` | Shoee/Pods/Alamofire/Source/MultipartFormData.swift:375-392 | one part as its flags say |
| `Multipart.FormData.Encode` | Shoee/Pods/Alamofire/Source/MultipartFormData.swift:322-338 | the specified form, or an error iff some length is wrong |
| `Multipart.FormData.WriteBuffer` | Shoee/Pods/Alamofire/Source/MultipartFormData.swift:496-512 | partial writes terminate with nothing dropped or repeated, as far as the output has space |
| `Multipart.FormData.WriteBodyStream` | Shoee/Pods/Alamofire/Source/MultipartFormData.swift:452-479 | at most the declared length is copied, as far as the output has space |
| `Multipart.DeclaredIsPrefix` | Shoee/Pods/Alamofire/Source/MultipartFormData.swift:452-479 | the declared body is the first bytes of the stream, as many as declared or as there are |
| `Multipart.FormData.WriteEncodedData` | Shoee/Pods/Alamofire/Source/MultipartFormData.swift:347-371 | the file holds the form of the parts cut to their declared lengths, or as much of it as there is space for |
| `Multipart.FormData.EncodersAgree` | Shoee/Pods/Alamofire/Source/MultipartFormData.swift:402-479 | with correct lengths the writer's form is the in-memory encoder's |
| `Multipart.EncodeBothWays` | Shoee/Pods/Alamofire/Source/MultipartFormData.swift:322-371 | both encoders run on two equal forms, in whatever chunks: where encode() succeeds, the file holds the same bytes as far as there is space; encode() succeeds exactly when all lengths are right |
| `RequestPipeline.SerializersInOrder` | Shoee/Pods/Alamofire/Source/Request.swift:514-611 | until processing is first finished: serializers start in append order, once each, one at a time, and completions keep that order |
| `RequestPipeline.FirstClear` | Shoee/Pods/Alamofire/Source/Request.swift:555-599 | the first clearing delivers exactly the serializers appended before none was left; those appended in between are discarded |
| `RequestPipeline.LostAtFirstClear` | Shoee/Pods/Alamofire/Source/Request.swift:555-599 | a run in which a serializer appended before the clearing is lost |
| `RequestPipeline.GoneForever` | Shoee/Pods/Alamofire/Source/Request.swift:570-602 | a discarded serializer never runs and is never completed afterwards |
| `RequestPipeline.CancelledForever` | Shoee/Pods/Alamofire/Source/Request.swift:50-63 | cancelled is never left |
| `RequestPipeline.TransitionTable` | Shoee/Pods/Alamofire/Source/Request.swift:50-63 | canTransitionTo as a table: anything from initialized, nothing from cancelled or finished, otherwise anything but back to initialized or to the same state |
| `RequestPipeline.CallsExactly` | Shoee/Pods/Alamofire/Source/Request.swift:670-732 | after cancel a request that has not finished is cancelled, after suspend an initialized or resumed one is suspended, after resume an initialized or suspended one is resumed; nothing else changes |
| `RequestPipeline.CancelIsFinal` | Shoee/Pods/Alamofire/Source/Request.swift:670-674 | a request cancelled before it has finished stays cancelled in every run |
| `RequestPipeline.PipelineStates` | Shoee/Pods/Alamofire/Source/Request.swift:534-591 | of the other steps only an append to a finished request, which resumes it, and a clearing, which finishes every request but a cancelled one, change the state |
| `RequestPipeline.FlagsExactly` | Shoee/Pods/Alamofire/Source/Request.swift:514-591 | finish is refused exactly if it has been called since the last clearing, and processing is finished exactly if there has been a clearing |
| `RequestCompletions.CompletionsCalled` | Shoee/Pods/Alamofire/Source/Request.swift:570-611 | in every run a completion is called no more often than its serializer was started, and exactly as often once nothing is under way |
| `RequestPipeline.StartedTwiceAfterFinish` | Shoee/Pods/Alamofire/Source/Request.swift:534-567 | a run in which two appends to a finished request start one serializer twice |
| `RequestPipeline.TransitionsExactly` | Shoee/Pods/Alamofire/Source/Request.swift:50-63 | every step keeps the state or moves it along canTransitionTo, exactly unless it appends to a finished request or cancels one by response disposition |
| `RequestPipeline.FinishedIsLeft` | Shoee/Pods/Alamofire/Source/Request.swift:1173-1179 | a run that finishes, from which both of those steps leave `finished` |
| `RequestReuse.ReusedInOrder` | Shoee/Pods/Alamofire/Source/Request.swift:514-611 | in every run, after processing has finished too, serializers start in append order, once each and one at a time, if from then on an append comes only when no activation may still look at the lists and a finish only when every serializer is completed |
| `RequestReuse.ReusedLosesNone` | Shoee/Pods/Alamofire/Source/Request.swift:570-602 | once processing has finished such a request loses no serializer any more |
| `RequestReuse.DisciplineIsExact` | Shoee/Pods/Alamofire/Source/Request.swift:534-602 | from every state such runs reach once processing has finished, a step keeps to that condition if and only if no continuation that keeps to it starts a serializer twice, runs two at once or loses one |
| `RequestReuse.RunSequenced` | Shoee/Pods/Alamofire/Source/Request.swift:514-611 | the states such runs reach: orderly before processing has finished, after it the serializers left are the last appended, what an activation holds is the next one to be completed, and everything started lies before it |
| `RequestReuse.BothStart` | Shoee/Pods/Alamofire/Source/Request.swift:555-602 | an activation that has not completed its serializer and a new one together start that serializer twice |
| `RequestReuse.ClearedAway` | Shoee/Pods/Alamofire/Source/Request.swift:570-602 | a serializer appended while an activation is about to clear is dropped by that clearing |
| `RequestRun.Pipeline.Do` | Shoee/Pods/Alamofire/Source/Request.swift:514-611 | every step carried out on the request object is that step of the pipeline |
| `RequestRun.RunRequest` | Shoee/Pods/Alamofire/Source/Request.swift:514-611 | under any interleaving the object is in the state of the run, so what is proved of the runs holds of it |
| `RequestLifecycle.Request.AppendResponseSerializer` | Shoee/Pods/Alamofire/Source/Request.swift:534-550 | appends, resumes a finished request, and says which blocks are queued |
| `RequestLifecycle.Request.NextResponseSerializer` | Shoee/Pods/Alamofire/Source/Request.swift:555-567 | the serializer at the index of the next completion |
| `RequestLifecycle.Request.ClearSerializers` | Shoee/Pods/Alamofire/Source/Request.swift:575-591 | hands over the completions and clears everything |
| `RequestLifecycle.Request.Transition` | Shoee/Pods/Alamofire/Source/Request.swift:670-732 | moves only along canTransitionTo |

## Left out

- Callbacks, extensions, pointer fields, allocation and custom stream callbacks of nanopb. The project builds
  the library with malloc support; for statically allocated fields, the only ones modelled, that adds the
  lookup before a union field is decoded, which `Decoder.ReleaseUnionField` has.
- Error messages: every failure is one value.
- Raw memory: a struct is a sequence of typed slots, one per member. Field addresses are modelled only in the
  iterator, where they are proved to determine the slot. Tables are trees, so a submessage that contains
  itself, which static allocation cannot store, has no table here.
- `Decoder.ReadSubmessage`: a nested struct is copied out and back rather than decoded in place.
- `Decoder.ReadMessageNoInit`: says nothing about the struct after a failure beyond which objects may change.
- The zero count stored over the start of a fixed-count array is modelled for a little-endian machine and
  aligned members. Where it reaches past a short array, the members after it are initialised later and are not
  affected in the model; bytes between members are not modelled.
- `Encoder.EncodeToBuffer`: an encoding of 2^64 bytes or more would wrap the byte count, so its outcome is left
  open, and the substream check adds the sizes without wrapping.
- `Fidelity.MessageRoundTrip`: length prefixes are 32-bit, so submessages and packed arrays encode below 4 GiB.
- The null-terminated and length-delimited top-level variants of encode and decode, which wrap the ones here.
- Generated tables whose sizes do not fit their struct: `ValidTable` and `RoomyTable` state what the generator
  guarantees.
- Real clocks: uptime is a real number that never runs backwards and is a parameter of each step; so are
  `requiresRefresh` and the authenticator's answers about requests.
- Multipart: file checks, MIME types, random boundaries, encoding one form twice, and stream errors.
- `Multipart.FormData.WriteEncodedData`: assumes that an output with space accepts at least one byte per write.
- Requests: tasks, progress, validation, redirects and retry. A retry resets the completions while serializers
  may be running, which `RequestPipeline` excludes.
- The rest of Alamofire, the second copy of nanopb, and the applications: plumbing, interfaces and views.
