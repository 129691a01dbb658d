# Verified models of the vendored wire, transport and image code

The app compiles in three pieces of vendored code with hard invariants. This project models each in Dafny and
proves what it is for. `dafny verify dfyconfig.toml` checks everything.

**nanopb: Protocol Buffers encoding.** A message descriptor (a `pb_field_t` array) drives an encoder and a decoder
over byte streams. The wire format is the Protocol Buffers Encoding specification ("Base 128 Varints", "Message
Structure", "Submessages").

- `Words`, `Varints`, `VarintLimits`: machine words, bit operations and base-128 varints; which bytes are one.
- `Schema`, `WellFormedValues`: descriptors, structs as field stores, and which values are well formed.
- `WireEncoding`, `WireDecoding`: the byte string of a struct, and the struct and leftover bytes of a byte string.
  These functions say what the imperative code computes; the laws are proved about them.
- `RoundTrip`, `Compatibility`, `Merging`, `MergedMessages`: the laws of encoding and decoding together.
- `WireFormat`: a reader of the wire format without descriptors, and what an encoded message is to it.
- `DecodedValues`: what decoding accepts and refuses, and what it can come to, for any input.
- `InputStream`, `FieldIterator`, `RequiredFields`, `Decoder`, `OutputStream`, `Encoder`: the C code as objects and
  loops, each method proved to compute the functions above. `StructLayout`: the iterator's addresses against the C
  compiler's offsets.

**BoringSSL: DTLS handshake transport** (sections 4.2.2, 4.2.3 and 4.2.4 of RFC 6347). The sender cuts a flight into
fragments that fit an MTU; the receiver reassembles them in a window of slots; a timer backs off.

- `Handshake`: the 12-byte fragment header.
- `Reassembly`, `Receiver`, `IncomingMessages`: bitmap, window and in-order delivery, as values and as objects.
- `Reading`: what any record does to the receiver, from whomever it comes.
- `Sender`, `Flights`, `FullPackets`, `OutgoingMessages`: sealing, write failures, rewinding, as values and as objects.
- `Transport`, `Completion`, `TakingTurns`, `ChangeCipherSpecs`: the whole protocol over a network that loses, repeats
  and reorders; what ends it, when it completes, why a sender that waits for its turn can always go on, and when the
  receiver knows of a ChangeCipherSpec.
- `Timer`: the retransmission timer.

**AlamofireImage: downloader and cache.** `Downloads` and `ImageDownloader` model the downloader as a state machine
whose atomic steps are the serial queue's blocks; `DownloadInvariants`, `DownloadOutcomes`, `StartOrder`,
`DownloadLimits` and `TasklessRequests` prove what it keeps, tells, starts, counts and strands. `ImageCache` models the
cache's barrier blocks, and `CacheContents` what they leave in it.

Conventions. Words are numbers, and masks and shifts are written as arithmetic. A value-level function is the
specification, a method of a class is the source's code in its own imperative form, and the method's `ensures` equates
the two. `None`, `Err` and a false result stand for the source's error returns. The number of handshake slots
(`SSL_MAX_HANDSHAKE_FLIGHT`, 7 in `CourseworkIOS/Pods/BoringSSL-GRPC/ssl/internal.h:983`) may be any positive number.
nanopb is built with `PB_FIELD_32BIT` (`CourseworkIOS/Pods/Target Support Files/nanopb/nanopb.xcconfig:2`), so
descriptor sizes have 32 bits.

Where the code differs from what its documentation says, the model follows the code:

- `CourseworkIOS/Pods/nanopb/pb_decode.h:74-75` offers `pb_decode_noinit` for merging messages. A zero tag ends
  decoding, so what follows a message with a zero tag is not merged; `Merging.MergesExactly` gives the exact condition
  on the input. A message that `pb_encode` wrote has no zero tag (`MergedMessages.EncodedHasNoZeroTag`).
- The 32-bit varint decoder (`CourseworkIOS/Pods/nanopb/pb_decode.c:182-242`) has an overflow error, but does not raise
  it for every value beyond 32 bits: bits 32 to 34 are lost if padding follows (`VarintLimits.HighBitsLost`), and behind
  36 bytes of padding the bit position wraps (`VarintLimits.PositionWraps`). `VarintLimits.Decode32Exactly` says what it
  takes of the varints of at most ten bytes.
- The two window tests of the receiver (`CourseworkIOS/Pods/BoringSSL-GRPC/ssl/d1_both.cc:380-382` and `:267-268`)
  differ at one sequence number, which is an error where its neighbours are ignored (`Receiver.WindowEdge`), and an
  error ends all reading. Before encryption that never happens as long as no flight begins before the receiver took
  all of the last one, which `d1_both.cc:557-558` presumes (`TakingTurns.PoliteRunReads`). If a sender begins flights
  without waiting, a record that arrives early can end the handshake, for any number of slots
  (`TakingTurns.EarlyRecordEndsReading`).
- A download whose request gets no task, because the session's adapter refuses it, is passed over by the loop that
  starts queued requests (`CourseworkIOS/Pods/AlamofireImage/Source/ImageDownloader.swift:531-536`). If it had to be
  queued it is never started (`TasklessRequests.TasklessStartsExactly`), and the only completion that its operations
  can get is that they were cancelled (`TasklessRequests.TasklessOperationWaits`); `TasklessRequests.TasklessWaits`
  is a run that ends so.
- `CourseworkIOS/Pods/AlamofireImage/Source/ImageDownloader.swift:185` gives the maximum number of active downloads at
  any given time. Only the counter keeps to it. A request that is cancelled in the queue still counts off one when it
  completes, so that more requests than the maximum can be under way (`DownloadLimits.TwoAtOnce`, by exactly how many
  in `DownloadLimits.UnderWayExactly`); the counter is right in all of a run exactly when that never happens
  (`DownloadLimits.CountsExactly`).
- The timer doubles in 32 bits, so the back-off formula holds exactly for initial durations up to a minute
  (`Timer.BackoffExactly`, with `Timer.DoublingWraps` as an example of what happens beyond).
- An empty message type stands on its terminator entry, so a tag zero with a non-zero wire type is an error there and
  an unknown field everywhere else (`FieldIterator.FieldIter.FindTag`).

## Model

| member | source | states |
|---|---|---|
| Varints.DecodeInvertsEncode | CourseworkIOS/Pods/nanopb/pb_decode.c:250-270 | every uint64 is encoded in at most ten bytes and decoded to itself, whatever follows |
| Varints.SkipInvertsEncode | CourseworkIOS/Pods/nanopb/pb_decode.c:273-282 | skipping a varint stops exactly behind what the encoder wrote |
| Varints.SignedInvertsEncode | CourseworkIOS/Pods/nanopb/pb_decode.c:1240-1252 | through zigzag every int64 comes back |
| Varints.Decode32IsDecodeModulo | CourseworkIOS/Pods/nanopb/pb_decode.c:182-242 | whenever both decoders accept, the 32-bit one gives the 64-bit value modulo 2^32 and stops at the same byte |
| Varints.Decode32InvertsEncode | CourseworkIOS/Pods/nanopb/pb_decode.c:182-242 | the 32-bit decoder reads back every uint32 |
| Varints.Decode32InvertsNegative | CourseworkIOS/Pods/nanopb/pb_decode.c:182-242 | and every sign-extended negative int32, to its low word |
| Varints.OrGroup64Value | CourseworkIOS/Pods/nanopb/pb_decode.c:250-270 | the loop's shift-and-or adds one base-128 digit, modulo 2^64 |
| VarintLimits.EncodeShape | CourseworkIOS/Pods/nanopb/pb_encode.c:574-594 | the bytes are the base-128 digits, low one first, all but the last with the high bit, and no leading zero digit |
| VarintLimits.GroupsAreWeighted | CourseworkIOS/Pods/nanopb/pb_decode.c:250-270 | the number read is the sum of the digits with their weights |
| VarintLimits.DecodesExactly | CourseworkIOS/Pods/nanopb/pb_decode.c:250-270 | a varint is taken exactly if it has at most ten bytes, and is its digits' sum modulo 2^64 |
| VarintLimits.SkipsExactly | CourseworkIOS/Pods/nanopb/pb_decode.c:273-282 | skipping fails exactly when no byte ends the varint, whatever its length |
| VarintLimits.Decode32Exactly | CourseworkIOS/Pods/nanopb/pb_decode.c:182-242 | of the varints of at most ten bytes the 32-bit decoder takes exactly those whose fifth byte, if it is the last, has four bits, and whose later bytes are padding, and reads the low 32 bits |
| VarintLimits.HighBitsLost | CourseworkIOS/Pods/nanopb/pb_decode.c:204-237 | an input of six bytes for 2^32 that is read as 0 instead of being refused |
| VarintLimits.PositionWraps | CourseworkIOS/Pods/nanopb/pb_decode.c:209-231 | an input of 38 bytes that is read with a wrong weight |
| Words.OrDisjoint | CourseworkIOS/Pods/nanopb/pb_decode.c:263-264 | or-ing a shifted group onto lower bits is adding it |
| Words.LittleEndianInverse | CourseworkIOS/Pods/nanopb/pb_decode.c:1254-1287 | fixed-width integers are read back from their little-endian bytes |
| Schema.DefaultAt | CourseworkIOS/Pods/nanopb/pb_decode.c:812-896 | after setting defaults every member holds its own entry's default, in whatever order entries share unions |
| Schema.SetDefaultsForgets | CourseworkIOS/Pods/nanopb/pb_decode.c:884-896 | setting defaults leaves nothing of what the struct held before |
| Schema.WellFormedIsDescriptor | CourseworkIOS/Pods/nanopb/pb_common.c:8-18 | a generated descriptor can be walked at every depth |
| WellFormedValues.ValidEncodes | CourseworkIOS/Pods/nanopb/pb_encode.c:494-516 | the encoder reports no error on a well-formed value |
| WellFormedValues.FieldDefaultIffEmpty | CourseworkIOS/Pods/nanopb/pb_encode.c:215-303 | a field outside a union is judged default exactly when it writes nothing |
| WellFormedValues.AllDefaultIffEmpty | CourseworkIOS/Pods/nanopb/pb_encode.c:247-279 | all fields of a struct are judged default exactly when its own encoding is zero bytes, unions included |
| WellFormedValues.SubmessageDefaultIffEmpty | CourseworkIOS/Pods/nanopb/pb_encode.c:247-279 | the same for a proto3 singular submessage, recursively |
| RoundTrip.CastsKeep | CourseworkIOS/Pods/nanopb/pb_decode.c:1289-1372 | the casts and overflow tests of the integer decoders accept every value of the field's size |
| RoundTrip.NumberRoundTrip | CourseworkIOS/Pods/nanopb/pb_decode.c:1289-1389 | every numeric decoder inverts its encoder, whatever follows |
| RoundTrip.BlobRoundTrip | CourseworkIOS/Pods/nanopb/pb_decode.c:1391-1461 | every byte-string decoder inverts its encoder |
| RoundTrip.SkipPayload | CourseworkIOS/Pods/nanopb/pb_decode.c:316-326 | pb_skip_field consumes exactly the payload that the encoder of any type writes for its wire type |
| RoundTrip.ProjectMemberAt | CourseworkIOS/Pods/nanopb/pb_decode.c:461-471 | a projected union is what its chosen member, if kept, makes of it |
| Compatibility.ForwardCompatibility | CourseworkIOS/Pods/nanopb/pb_decode.c:933-962 | a descriptor that lacks fields, at any depth, decodes an encoded message to exactly the projection on the kept fields, and uses the input up |
| Compatibility.MessageRoundTrip | CourseworkIOS/Pods/nanopb/pb_decode.c:901-1063 | decoding what was encoded succeeds, uses it up, and returns the value up to contents of absent fields |
| Compatibility.AgreeSameEncoding | CourseworkIOS/Pods/nanopb/pb_encode.c:494-516 | values equal up to absent contents encode to the same bytes, so re-encoding a decoded message gives the message |
| Compatibility.AllRequiredMarked | CourseworkIOS/Pods/nanopb/pb_decode.c:988-1046 | a full encoding marks every required field the decoder keeps track of |
| Compatibility.DeliveredIsProjection | CourseworkIOS/Pods/nanopb/pb_decode.c:401-475 | storing the fields one by one over the defaults leaves the projection |
| Merging.LoopOver | CourseworkIOS/Pods/nanopb/pb_decode.c:919-997 | the decoding loop over s1 and then s2 is the loop over s2 from the state after s1, unless a zero tag stopped it |
| Merging.SeenAccumulates | CourseworkIOS/Pods/nanopb/pb_decode.c:988-993 | fields already marked change neither what is stored nor which further fields get marked |
| Merging.MemberReadsPayload | CourseworkIOS/Pods/nanopb/pb_decode.c:401-475 | however a field is decoded, it reads exactly what skipping by its own wire type would pass over |
| Merging.LoopStopsAtZero | CourseworkIOS/Pods/nanopb/pb_decode.c:919-931 | decoding that succeeds stops at a zero tag exactly when a walk over the records meets one, and leaves what follows it |
| Merging.MergeByConcatenation | CourseworkIOS/Pods/nanopb/pb_decode.h:74-75 | decoding s1 + s2 is decoding s1 and then s2 into the same struct, when both succeed and no record of s1 starts with a zero tag |
| Merging.NoMergeAfterZero | CourseworkIOS/Pods/nanopb/pb_decode.c:925-931 | after a zero tag the rest is left unread |
| Merging.MergesExactly | CourseworkIOS/Pods/nanopb/pb_decode.c:901-1049 | concatenation merges exactly when no record of s1 starts with a zero tag, or that tag is the last thing there is: a condition on the bytes and the descriptor, not on the struct |
| Merging.ZeroTagHidesField | CourseworkIOS/Pods/nanopb/pb_decode.c:925-931 | an input where merging fails: a zero tag hides a field of the second message |
| MergedMessages.MergesFieldwise | CourseworkIOS/Pods/nanopb/pb_decode.c:401-475 | decoding an encoded message over any struct merges it in: the last scalar wins, arrays append, submessages merge recursively, a union is replaced, absent and default fields leave what was there; it fails exactly when an array has no room |
| MergedMessages.PackedOverflows | CourseworkIOS/Pods/nanopb/pb_decode.c:419-447 | a packed array that does not fit behind what is there is refused |
| MergedMessages.EachOverflows | CourseworkIOS/Pods/nanopb/pb_decode.c:448-459 | so is an array of single records |
| MergedMessages.EncodedHasNoZeroTag | CourseworkIOS/Pods/nanopb/pb_encode.c:494-516 | what the encoder writes has no zero tag, for any descriptor that lacks some of the fields; so encoded messages always merge |
| MergedMessages.ConcatenationMerges | CourseworkIOS/Pods/nanopb/pb_decode.h:74-75 | decoding two encoded messages one behind the other gives the first with the second merged in, or fails exactly when an array has no room for both |
| WireFormat.SignedMeaning | CourseworkIOS/Pods/nanopb/pb_encode.c:734-755 | a signed varint field of any width writes the 64-bit word of its value: negative numbers are sign-extended |
| WireFormat.Widens | CourseworkIOS/Pods/nanopb/pb_encode.c:734-773 | a 64-bit field of the same type reads what a narrower one wrote to the same number |
| WireFormat.ValueRead | CourseworkIOS/Pods/nanopb/pb_encode.c:634-680 | each value is written with its meaning under the wire type 0, 1, 2 or 5 of its type: a 64-bit word, little-endian bytes, or a length and the bytes |
| WireFormat.PackedRead | CourseworkIOS/Pods/nanopb/pb_encode.c:137-181 | a packed array is its items' payloads, one after the other |
| WireFormat.EncodingRead | CourseworkIOS/Pods/nanopb/pb_encode.c:494-516 | a reader that knows no descriptor reads an encoded message as exactly the entries that its struct means: fields in descriptor order, nothing for absent and zero values, one entry for a packed array, one each for any other array |
| WireFormat.StringRead | CourseworkIOS/Pods/nanopb/pb_encode.c:833-857 | of a string what comes before its terminator is sent, and all of the array if it has none |
| WireFormat.OversizeRefused | CourseworkIOS/Pods/nanopb/pb_encode.c:126-135 | bytes and arrays that do not fit have no encoding |
| WireFormat.KnownBytes | CourseworkIOS/Pods/nanopb/pb_encode.c:634-672 | the bytes of two examples of the encoding's documentation |
| DecodedValues.HalfIsPower | CourseworkIOS/Pods/nanopb/pb_decode.c:1289-1372 | the limits of a field's integers are the powers of two of its width |
| DecodedValues.SignedDecodes | CourseworkIOS/Pods/nanopb/pb_decode.c:1289-1325 | an integer field takes the low 32 bits of the word as an int32, or all 64 in a 64-bit field, and refuses a number beyond its width |
| DecodedValues.UnsignedDecodes | CourseworkIOS/Pods/nanopb/pb_decode.c:1326-1349 | an unsigned field takes the word exactly when its width holds it |
| DecodedValues.ZigZagDecodes | CourseworkIOS/Pods/nanopb/pb_decode.c:1350-1372 | a zigzag field takes the number exactly when its width holds it |
| DecodedValues.BlobsDecode | CourseworkIOS/Pods/nanopb/pb_decode.c:1391-1508 | a byte string is taken exactly when it is all there and fits, with its terminator or length field |
| DecodedValues.DecodedFits | CourseworkIOS/Pods/nanopb/pb_decode.c:1051-1063 | whatever the input, every value of an accepted message fits its field, at every depth |
| DecodedValues.RequiredExactly | CourseworkIOS/Pods/nanopb/pb_decode.c:1006-1046 | input that is otherwise in order is refused exactly when one of the first 64 required fields has no record |
| DecodedValues.UnknownWireRefused | CourseworkIOS/Pods/nanopb/pb_decode.c:316-326 | an unknown field with another wire type than 0, 1, 2 and 5 is an error |
| DecodedValues.WireIgnored | CourseworkIOS/Pods/nanopb/pb_decode.c:401-475 | outside of packed arrays a known field is read by its own type, whatever its wire type |
| DecodedValues.TagsExactly | CourseworkIOS/Pods/nanopb/pb_decode.c:293-314 | a tag is a 32-bit varint of field number and wire type, and only the number zero ends the message |
| DecodedValues.FieldZeroSkipped | CourseworkIOS/Pods/nanopb/pb_decode.c:933-962 | field number zero is skipped like an unknown field, except in a message type without fields |
| StructLayout.WalkFindsMembers | CourseworkIOS/Pods/nanopb/pb.h:385-403 | for the offsets that the macros of pb.h compute, the iterator finds each member, and its count, has_ flag or which_, where the C compiler put it |
| StructLayout.UnionShares | CourseworkIOS/Pods/nanopb/pb_common.c:41-47 | the members of a union share their place and their which_ |
| StructLayout.EntriesApart | CourseworkIOS/Pods/nanopb/pb_common.c:48-71 | an entry lies behind all items of the one before it, unless they are in one union |
| StructLayout.ItemsApart | CourseworkIOS/Pods/nanopb/pb_common.c:48-71 | so no item of one entry has a byte of an item of another |
| FieldIterator.FieldIter.Begin | CourseworkIOS/Pods/nanopb/pb_common.c:8-18 | the iterator stands on the first entry with its addresses |
| FieldIterator.FieldIter.Next | CourseworkIOS/Pods/nanopb/pb_common.c:20-73 | one entry on, cyclically, with every address and the required-field index equal to those of a fresh walk |
| FieldIterator.FieldIter.FindTag | CourseworkIOS/Pods/nanopb/pb_common.c:75-97 | from any position, ends and finds an entry with the tag exactly when there is one, leaving a fresh walk's addresses |
| RequiredFields.OrUnites | CourseworkIOS/Pods/nanopb/pb_decode.c:988-993 | or unites the bits of two words |
| RequiredFields.MarkAdds | CourseworkIOS/Pods/nanopb/pb_decode.c:988-993 | setting one bit adds one field index to the represented set |
| RequiredFields.EqualsMask | CourseworkIOS/Pods/nanopb/pb_decode.c:1029-1043 | a word without higher bits equals the mask of n bits exactly when those bits are set |
| RequiredFields.ShiftedMask | CourseworkIOS/Pods/nanopb/pb_decode.c:1036-1043 | the shifted all-ones word is the mask of the remaining bits |
| RequiredFields.AllMarked | CourseworkIOS/Pods/nanopb/pb_decode.c:1027-1045 | the two-part comparison passes exactly when every tracked field was seen |
| InputStream.IStream.Read | CourseworkIOS/Pods/nanopb/pb_decode.c:100-132 | reads exactly the next bytes, or fails and changes nothing; position plus bytes left stays |
| InputStream.IStream.DecodeVarint32 | CourseworkIOS/Pods/nanopb/pb_decode.c:182-242 | the loop computes the 32-bit decoder, its errors and its end-of-stream flag |
| InputStream.IStream.DecodeVarint | CourseworkIOS/Pods/nanopb/pb_decode.c:250-270 | the loop computes the value of the base-128 digits modulo 2^64 |
| InputStream.IStream.SkipVarint | CourseworkIOS/Pods/nanopb/pb_decode.c:273-282 | skips a varint of any length |
| InputStream.IStream.DecodeTag | CourseworkIOS/Pods/nanopb/pb_decode.c:293-314 | a tag and wire type, the end of the message at a zero, or an error |
| InputStream.IStream.SkipField | CourseworkIOS/Pods/nanopb/pb_decode.c:316-326 | skips a payload by its wire type, or fails on an unknown one |
| InputStream.IStream.MakeSubstream | CourseworkIOS/Pods/nanopb/pb_decode.c:367-380 | the substream is exactly the delimited payload, and the parent keeps what follows it |
| InputStream.IStream.CloseSubstream | CourseworkIOS/Pods/nanopb/pb_decode.c:382-395 | the parent resumes exactly behind the payload, whatever was read inside |
| Decoder.DecInteger | CourseworkIOS/Pods/nanopb/pb_decode.c:1289-1372 | the integer decoders with their casts and clamps |
| Decoder.DecFixed | CourseworkIOS/Pods/nanopb/pb_decode.c:1374-1389 | the fixed-width decoders |
| Decoder.DecBytes | CourseworkIOS/Pods/nanopb/pb_decode.c:1391-1426 | bytes that fit the field, or an error |
| Decoder.DecString | CourseworkIOS/Pods/nanopb/pb_decode.c:1428-1461 | a string that fits with its terminator, the size computed in 32 bits |
| Decoder.DecFixedLengthBytes | CourseworkIOS/Pods/nanopb/pb_decode.c:1487-1508 | a fixed-length byte array, an empty payload standing for zeros |
| Decoder.DecSubmessage | CourseworkIOS/Pods/nanopb/pb_decode.c:1463-1485 | a submessage, in a substream; the recursion ends on the bytes left |
| Decoder.DecPacked | CourseworkIOS/Pods/nanopb/pb_decode.c:419-447 | a packed array: the payload must be used up within the array's size |
| Decoder.DecStaticField | CourseworkIOS/Pods/nanopb/pb_decode.c:401-475 | has_ flags, counts and which_ as the field's type asks |
| Decoder.DecodeRecord | CourseworkIOS/Pods/nanopb/pb_decode.c:919-997 | one turn of the decoding loop |
| Decoder.CheckRequired | CourseworkIOS/Pods/nanopb/pb_decode.c:1006-1046 | passes exactly when each of the first 64 required fields was seen |
| Decoder.PbDecodeNoInit | CourseworkIOS/Pods/nanopb/pb_decode.c:901-1049 | the loop and the required check compute the decoding of the stream into the struct |
| Decoder.PbFieldSetToDefault | CourseworkIOS/Pods/nanopb/pb_decode.c:812-882 | flags and counts cleared, submessages set to their own defaults recursively, other fields to their initial value |
| Decoder.PbMessageSetToDefaults | CourseworkIOS/Pods/nanopb/pb_decode.c:884-896 | the walk sets every member to its default, at every depth |
| Decoder.PbDecode | CourseworkIOS/Pods/nanopb/pb_decode.c:1051-1063 | the result does not depend on what the struct held |
| OutputStream.OStream.Write | CourseworkIOS/Pods/nanopb/pb_encode.c:101-120 | appends all of the bytes or, if they do not fit, none and nothing changes; a sizing stream only counts; bytes outside the stream's range stay |
| Encoder.EncodeVarint | CourseworkIOS/Pods/nanopb/pb_encode.c:574-594 | the buffer-filling loop writes the varint |
| Encoder.EncodeFixed32 | CourseworkIOS/Pods/nanopb/pb_encode.c:607-617 | little-endian bytes |
| Encoder.EncodeFixed64 | CourseworkIOS/Pods/nanopb/pb_encode.c:619-632 | little-endian bytes |
| Encoder.EncodeString | CourseworkIOS/Pods/nanopb/pb_encode.c:674-680 | a length and that many bytes |
| Encoder.ReadSigned | CourseworkIOS/Pods/nanopb/pb_encode.c:734-755 | the cell is read by the field's size, and other sizes are refused |
| Encoder.ReadUnsigned | CourseworkIOS/Pods/nanopb/pb_encode.c:757-773 | likewise for an unsigned cell |
| Encoder.SignedCell | CourseworkIOS/Pods/nanopb/pb_encode.c:734-755 | a cell reads as n exactly when n is a value of its type |
| Encoder.EncNumber | CourseworkIOS/Pods/nanopb/pb_encode.c:734-808 | the numeric field encoders write exactly the encoding of every value of the field's type |
| Encoder.EncBlob | CourseworkIOS/Pods/nanopb/pb_encode.c:810-869 | the byte-string field encoders |
| Encoder.EncSubmessage | CourseworkIOS/Pods/nanopb/pb_encode.c:682-730 | sizing run, length, writing run: the two runs agree, so the "submsg size changed" error is unreachable |
| Encoder.SizePacked | CourseworkIOS/Pods/nanopb/pb_encode.c:137-163 | the size of a packed array, counted without writing |
| Encoder.EncArray | CourseworkIOS/Pods/nanopb/pb_encode.c:126-211 | packed or one record each, and too long an array refused |
| Encoder.CheckZero | CourseworkIOS/Pods/nanopb/pb_encode.c:284-301 | the byte-by-byte comparison finds a number zero exactly when it is |
| Encoder.CheckDefault | CourseworkIOS/Pods/nanopb/pb_encode.c:215-303 | the tests by type and the loop over a submessage decide whether a field holds its default |
| Encoder.EncBasicField | CourseworkIOS/Pods/nanopb/pb_encode.c:307-392 | what each kind of field writes |
| Encoder.PbEncode | CourseworkIOS/Pods/nanopb/pb_encode.c:494-516 | succeeds exactly when the value has an encoding and, if writing, it fits; then exactly that is appended |
| Encoder.PbGetEncodedSize | CourseworkIOS/Pods/nanopb/pb_encode.c:533-542 | the sizing run counts exactly the bytes of the encoding |
| Encoder.EncodeIntoBuffer | CourseworkIOS/Pods/nanopb/pb_encode.c:84-99 | encoding into an n-byte buffer succeeds exactly when the size is at most n |
| Encoder.ValidFits | CourseworkIOS/Pods/nanopb/pb_encode.c:682-730 | a well-formed value meets the encoder's size requirements at every depth |
| Handshake.ParseInvertsSerialize | CourseworkIOS/Pods/BoringSSL-GRPC/ssl/d1_both.cc:459-473 | a fragment is parsed back from its header and body, whatever follows |
| Handshake.HeaderLayout | CourseworkIOS/Pods/BoringSSL-GRPC/ssl/d1_both.cc:693-712 | type, length, sequence number, fragment offset and length are at their places of section 4.2.2 of RFC 6347, high byte first |
| Handshake.ParsesExactly | CourseworkIOS/Pods/BoringSSL-GRPC/ssl/d1_both.cc:459-473 | a fragment is refused exactly when its header or its body is cut short |
| Reassembly.RangeBits | CourseworkIOS/Pods/BoringSSL-GRPC/ssl/d1_both.cc:203-205 | bit_range sets exactly the bits from start up to end |
| Reassembly.EqualsRange | CourseworkIOS/Pods/BoringSSL-GRPC/ssl/d1_both.cc:243-246 | a byte without higher bits equals bit_range(0, n) exactly when its n low bits are set |
| Reassembly.CoveredExactly | CourseworkIOS/Pods/BoringSSL-GRPC/ssl/d1_both.cc:211-251 | after any sequence of fragments a byte is in exactly when it was before or some fragment covered it |
| Reassembly.HmFragment.constructor | CourseworkIOS/Pods/BoringSSL-GRPC/ssl/d1_both.cc:152-199 | a message with header, no byte of its body in, complete at once if it has none |
| Reassembly.FillRange | CourseworkIOS/Pods/BoringSSL-GRPC/ssl/d1_both.cc:227-237 | the byte-wise updates set exactly the bits of the range |
| Reassembly.AllSet | CourseworkIOS/Pods/BoringSSL-GRPC/ssl/d1_both.cc:239-247 | the completeness test holds exactly when every byte is in |
| Reassembly.HmFragment.Mark | CourseworkIOS/Pods/BoringSSL-GRPC/ssl/d1_both.cc:211-251 | the bitmap gains exactly the range, has no bit beyond the message, and is dropped exactly when every byte is in |
| Reassembly.HmFragment.CopyIn | CourseworkIOS/Pods/BoringSSL-GRPC/ssl/d1_both.cc:398-402 | a fragment's bytes are in at their place, the header and all others stay |
| Reassembly.HmFragment.CompleteData | CourseworkIOS/Pods/BoringSSL-GRPC/ssl/d1_both.cc:408-424 | the buffer of a complete message is the message with its header |
| Receiver.SlotMatchesFragment | CourseworkIOS/Pods/BoringSSL-GRPC/ssl/d1_both.cc:275-276 | the assertion on a slot's sequence number never fires |
| Receiver.AcceptKeepsWindow | CourseworkIOS/Pods/BoringSSL-GRPC/ssl/d1_both.cc:380-402 | occupied slots hold messages of the window, each at its residue |
| Receiver.NextKeepsWindow | CourseworkIOS/Pods/BoringSSL-GRPC/ssl/d1_both.cc:426-438 | releasing the current message moves the window on |
| Receiver.CompletedStays | CourseworkIOS/Pods/BoringSSL-GRPC/ssl/d1_both.cc:392-395 | no fragment changes a completed message |
| Receiver.CompletedStaysThroughRecord | CourseworkIOS/Pods/BoringSSL-GRPC/ssl/d1_both.cc:345-405 | nor does any record, malformed or not |
| Receiver.WindowEdge | CourseworkIOS/Pods/BoringSSL-GRPC/ssl/d1_both.cc:380-382 | the sequence number just past the window is an error, those beyond and before are ignored |
| Reading.RefusedExactly | CourseworkIOS/Pods/BoringSSL-GRPC/ssl/d1_both.cc:356-390 | a fragment of anybody is an error exactly when it sticks out of its message, the message is too long, it is another than the next in the encrypted epoch, it is just past the window, or it contradicts what is in |
| Reading.UnwantedStaysOut | CourseworkIOS/Pods/BoringSSL-GRPC/ssl/d1_both.cc:356-396 | a fragment that is refused, outside the window or of a complete message changes nothing |
| Reading.WantedGetsIn | CourseworkIOS/Pods/BoringSSL-GRPC/ssl/d1_both.cc:384-402 | any other puts exactly its bytes in their place, over what was there, and touches nothing else |
| Reading.RecordsJoin | CourseworkIOS/Pods/BoringSSL-GRPC/ssl/d1_both.cc:345-405 | one record with several fragments does what several records do |
| Reading.RecordOfOne | CourseworkIOS/Pods/BoringSSL-GRPC/ssl/d1_both.cc:345-405 | a record with one fragment does what the fragment does |
| Reading.OpenExactly | CourseworkIOS/Pods/BoringSSL-GRPC/ssl/d1_both.cc:305-343 | the flag goes up with a ChangeCipherSpec under the null cipher and with nothing else; application data under a cipher is dropped, and what else is no handshake record is an error |
| Reading.TakesFlagExactly | CourseworkIOS/Pods/BoringSSL-GRPC/ssl/d1_both.cc:475-492 | the handshake sees a ChangeCipherSpec exactly when one is flagged or read, and then the flag is down |
| Reading.CallKeepsHanded | CourseworkIOS/Pods/BoringSSL-GRPC/ssl/d1_both.cc:408-438 | whatever is read, a message that was handed out stays complete, so that the assertions of dtls1_next_message hold |
| Reading.HandsOutExactly | CourseworkIOS/Pods/BoringSSL-GRPC/ssl/d1_both.cc:419-432 | has_message says exactly that the current message was handed out |
| IncomingMessages.Incoming.GetIncoming | CourseworkIOS/Pods/BoringSSL-GRPC/ssl/d1_both.cc:265-295 | the slot's message, a new one, or none if the window, type or length does not fit |
| IncomingMessages.Incoming.AcceptFragment | CourseworkIOS/Pods/BoringSSL-GRPC/ssl/d1_both.cc:356-402 | one fragment changes the state as the specification says |
| IncomingMessages.Incoming.OpenHandshake | CourseworkIOS/Pods/BoringSSL-GRPC/ssl/d1_both.cc:297-406 | a record changes the state as the specification says |
| IncomingMessages.Incoming.GetMessage | CourseworkIOS/Pods/BoringSSL-GRPC/ssl/d1_both.cc:408-424 | hands out the current message exactly when it is complete |
| IncomingMessages.Incoming.NextMessage | CourseworkIOS/Pods/BoringSSL-GRPC/ssl/d1_both.cc:426-438 | frees the slot and moves on by one |
| IncomingMessages.Incoming.OpenChangeCipherSpec | CourseworkIOS/Pods/BoringSSL-GRPC/ssl/d1_both.cc:475-492 | reads a record if the flag is down, and takes the flag |
| IncomingMessages.Connection.OpenChangeCipherSpec | CourseworkIOS/Pods/BoringSSL-GRPC/ssl/ssl_lib.cc:244-257 | after an error nothing is read any more |
| IncomingMessages.Connection.OpenHandshake | CourseworkIOS/Pods/BoringSSL-GRPC/ssl/ssl_lib.cc:230-242 | after an error nothing is read any more |
| Sender.FinishedMessage | CourseworkIOS/Pods/BoringSSL-GRPC/ssl/d1_both.cc:511-537 | finishing a message gives it its own length as total length: one whole fragment |
| Sender.SealFragmentFollows | CourseworkIOS/Pods/BoringSSL-GRPC/ssl/d1_both.cc:693-734 | a sealed fragment continues the flight exactly at the cursor, fits, and moves the cursor behind itself |
| Sender.SealMessageFollows | CourseworkIOS/Pods/BoringSSL-GRPC/ssl/d1_both.cc:644-734 | sealing a message does not fail, and makes no progress exactly when there is no room for a header and a byte |
| Sender.SealRestFollows | CourseworkIOS/Pods/BoringSSL-GRPC/ssl/d1_both.cc:739-780 | a packet's records continue the flight from the old cursor to the new one and fit the space |
| Sender.PacketMakesProgress | CourseworkIOS/Pods/BoringSSL-GRPC/ssl/d1_both.cc:772-776 | a packet is refused exactly when the MTU has no room for the next message |
| Sender.PacketDecreases | CourseworkIOS/Pods/BoringSSL-GRPC/ssl/d1_both.cc:797-818 | every packet leaves fewer messages, or fewer bytes of the one at the cursor |
| Sender.SendFollows | CourseworkIOS/Pods/BoringSSL-GRPC/ssl/d1_both.cc:782-827 | the packets written lead from the old cursor to the new one, a failed write leaves no gap, and none exceeds the MTU |
| Sender.SendCompletes | CourseworkIOS/Pods/BoringSSL-GRPC/ssl/d1_both.cc:782-827 | with room for a header and a byte and no failing write the whole flight goes out |
| FullPackets.FlightGrows | CourseworkIOS/Pods/BoringSSL-GRPC/ssl/d1_both.cc:555-594 | messages added to a flight in the making join it in order, and only handshake messages take a sequence number |
| FullPackets.FlightStartsAfresh | CourseworkIOS/Pods/BoringSSL-GRPC/ssl/d1_both.cc:555-560 | after a complete flight they make a flight of their own, sent from its start |
| FullPackets.FlightIsBounded | CourseworkIOS/Pods/BoringSSL-GRPC/ssl/d1_both.cc:565-570 | a message is refused exactly when the flight is full or its length is beyond 32 bits |
| FullPackets.PartialFills | CourseworkIOS/Pods/BoringSSL-GRPC/ssl/d1_both.cc:684-691 | a fragment that is not the last of its message fills the space there is |
| FullPackets.PacketIsFull | CourseworkIOS/Pods/BoringSSL-GRPC/ssl/d1_both.cc:739-780 | a packet that does not end the flight has no room for more of it |
| FullPackets.SendCountsWrites | CourseworkIOS/Pods/BoringSSL-GRPC/ssl/d1_both.cc:797-818 | each packet takes one write; sending stops early only at a failed write, or for an MTU without room for the next message |
| Flights.RecordsCarry | CourseworkIOS/Pods/BoringSSL-GRPC/ssl/d1_both.cc:644-780 | records between two cursors carry exactly the bytes between them, of every message |
| Flights.TriesFollow | CourseworkIOS/Pods/BoringSSL-GRPC/ssl/d1_both.cc:809-817 | so do any number of sends, each with its own MTU, that go on where the last one stopped |
| Flights.RecordsConsecutive | CourseworkIOS/Pods/BoringSSL-GRPC/ssl/d1_both.cc:693-734 | each fragment of a message starts where the last one ended |
| Flights.FlightTiling | CourseworkIOS/Pods/BoringSSL-GRPC/ssl/d1_both.cc:644-827 | once a flight is out, however many writes failed and however the MTU changed, each message's fragments start at 0, each where the last ended, and join up to its body, each ChangeCipherSpec is there once, and every packet fits the MTU it was sent under |
| OutgoingMessages.FinishInPlace | CourseworkIOS/Pods/BoringSSL-GRPC/ssl/d1_both.cc:525-537 | the header is fixed up in place |
| OutgoingMessages.Flight.Add | CourseworkIOS/Pods/BoringSSL-GRPC/ssl/d1_both.cc:555-594 | a message joins the flight, or starts a new one after a complete flight, or is refused |
| OutgoingMessages.Flight.SealNextMessage | CourseworkIOS/Pods/BoringSSL-GRPC/ssl/d1_both.cc:644-734 | computes the specified record and cursor |
| OutgoingMessages.Flight.SealNextPacket | CourseworkIOS/Pods/BoringSSL-GRPC/ssl/d1_both.cc:739-780 | the loop computes the specified packet and cursor |
| OutgoingMessages.Flight.SendFlight | CourseworkIOS/Pods/BoringSSL-GRPC/ssl/d1_both.cc:782-827 | the loop ends, writes the specified packets, and restores the cursor on a failed write |
| OutgoingMessages.Flight.FlushFlight | CourseworkIOS/Pods/BoringSSL-GRPC/ssl/d1_both.cc:829-834 | marks the flight complete and goes on sending |
| OutgoingMessages.Flight.RetransmitFlight | CourseworkIOS/Pods/BoringSSL-GRPC/ssl/d1_both.cc:836-845 | sends from the start of the flight |
| Transport.AddMessageKeeps | CourseworkIOS/Pods/BoringSSL-GRPC/ssl/d1_both.cc:511-598 | a new message keeps the end-to-end invariant |
| Transport.WriteKeeps | CourseworkIOS/Pods/BoringSSL-GRPC/ssl/d1_both.cc:782-845 | whatever the MTU and wherever writes fail, only fragments of the sender's messages reach the network |
| Transport.AcceptKeeps | CourseworkIOS/Pods/BoringSSL-GRPC/ssl/d1_both.cc:350-406 | messages under reassembly hold only the sender's bytes, at their places |
| Transport.ConsumeKeeps | CourseworkIOS/Pods/BoringSSL-GRPC/ssl/d1_both.cc:408-438 | the message handed on is the sender's next one |
| Transport.StepKeeps | CourseworkIOS/Pods/BoringSSL-GRPC/ssl/d1_both.cc:350-438 | every step of sender, network and receiver keeps the invariant |
| Transport.DeliveredIsPrefix | CourseworkIOS/Pods/BoringSSL-GRPC/ssl/d1_both.cc:644-845 | in every reachable state the receiver has handed on a prefix of the sender's messages, in order, each once, byte for byte |
| Completion.OpenFailsExactly | CourseworkIOS/Pods/BoringSSL-GRPC/ssl/d1_both.cc:297-406 | a record of the sender is an error exactly when it is a ChangeCipherSpec under a cipher, or of a message that is too long, or in the encrypted epoch not of the next message, or elsewhere of the message just past the window |
| Completion.FailsExactly | CourseworkIOS/Pods/BoringSSL-GRPC/ssl/ssl_lib.cc:230-242 | however records arrive and messages are taken in between, reading fails exactly when one of the records is of that kind when it comes |
| Completion.ArrivalsFailExactly | CourseworkIOS/Pods/BoringSSL-GRPC/ssl/ssl_lib.cc:230-242 | while no message is taken the order does not matter: reading fails exactly when one of the records is of that kind |
| Completion.FailedReadsNothing | CourseworkIOS/Pods/BoringSSL-GRPC/ssl/ssl_lib.cc:214-220 | after an error nothing that arrives changes anything |
| Completion.AcceptAdds | CourseworkIOS/Pods/BoringSSL-GRPC/ssl/d1_both.cc:380-402 | a fragment of a message in the window, if it is no error, gets in |
| Completion.ArrivedIsIn | CourseworkIOS/Pods/BoringSSL-GRPC/ssl/d1_both.cc:297-406 | as long as reading has not failed, every fragment that arrived is in or its message was handed on |
| Completion.FlightCovers | CourseworkIOS/Pods/BoringSSL-GRPC/ssl/d1_both.cc:644-780 | the records of a flight go over every byte of every message |
| Completion.FlightCompletes | CourseworkIOS/Pods/BoringSSL-GRPC/ssl/d1_both.cc:297-438 | once every record of a whole sending has arrived, in any order, with anything else of the sender in between and messages taken at any time, and none was refused when it came, each message that the window reached is handed on or complete, and is the sender's |
| Completion.RoomyFlightCompletes | CourseworkIOS/Pods/BoringSSL-GRPC/ssl/d1_both.cc:297-438 | before encryption, with no message too long and none past the window, nothing can be refused, so the flight always completes |
| TakingTurns.PoliteStepKeeps | CourseworkIOS/Pods/BoringSSL-GRPC/ssl/d1_both.cc:555-598 | when a flight begins only after the last one was taken, every step of sender, network and receiver leaves all messages that were not handed on in the current flight and within the window |
| TakingTurns.PoliteRunReads | CourseworkIOS/Pods/BoringSSL-GRPC/ssl/d1_both.cc:555-598 | so before encryption no record of such a sender is ever refused, in any run, whatever the network does |
| TakingTurns.PoliteFlightCompletes | CourseworkIOS/Pods/BoringSSL-GRPC/ssl/d1_both.cc:297-438 | in every state of such a run, once every record of a whole sending of a flight has arrived, each of its messages is handed on or complete, and is the sender's |
| TakingTurns.ResendAll | CourseworkIOS/Pods/BoringSSL-GRPC/ssl/d1_both.cc:836-845 | a retransmission without a failing write puts a whole sending of the flight on the network, wherever sending had stopped |
| TakingTurns.CanFinish | CourseworkIOS/Pods/BoringSSL-GRPC/ssl/d1_both.cc:836-845 | from every state of such a run, whatever was lost, the run can go on, by a retransmission, so that the receiver takes every message of the sender: the handshake is never stuck |
| TakingTurns.EarlyRecordEndsReading | CourseworkIOS/Pods/BoringSSL-GRPC/ssl/d1_both.cc:380-386 | for any number of slots, a run of a sender that begins a flight before the earlier ones were taken, in which a record that arrives early ends all reading, and no message is ever handed on |
| ChangeCipherSpecs.FlaggedExactly | CourseworkIOS/Pods/BoringSSL-GRPC/ssl/d1_both.cc:320-338 | while reading goes on, the flag is up exactly when it was, or a ChangeCipherSpec arrived, whatever else arrives and is taken |
| ChangeCipherSpecs.FlaggedInRun | CourseworkIOS/Pods/BoringSSL-GRPC/ssl/d1_both.cc:320-338 | in every run under the null cipher, until reading fails, the flag is up exactly when a ChangeCipherSpec arrived |
| ChangeCipherSpecs.FlightRaisesFlag | CourseworkIOS/Pods/BoringSSL-GRPC/ssl/d1_both.cc:320-338 | once every record of a flight with a ChangeCipherSpec has arrived, and none was refused, the flag is up |
| ChangeCipherSpecs.CanFinishFlagged | CourseworkIOS/Pods/BoringSSL-GRPC/ssl/d1_both.cc:836-845 | from every state of a run of a sender that takes turns, the run can go on until everything is taken and the flag is up |
| Timer.StartAndStop | CourseworkIOS/Pods/BoringSSL-GRPC/ssl/d1_lib.cc:120-166 | a timer that is not running starts with its initial duration, a running one keeps its own; a stopped one does not run and has forgotten its timeouts |
| Timer.MtuFallsBackExactly | CourseworkIOS/Pods/BoringSSL-GRPC/ssl/d1_lib.cc:168-186 | the MTU becomes the transport's acceptable fallback at the third expiry since the last stop and at every later one, and does not change otherwise |
| Timer.DeadlineIsNowPlusDuration | CourseworkIOS/Pods/BoringSSL-GRPC/ssl/d1_lib.cc:120-136 | the deadline is exactly the current time plus the duration, normalized, and the timer then runs |
| Timer.RemainingIsDifference | CourseworkIOS/Pods/BoringSSL-GRPC/ssl/d1_lib.cc:197-245 | the remaining time is the difference to the deadline, zero below 15 ms, clamped to an int of seconds |
| Timer.ExpiresAtDeadline | CourseworkIOS/Pods/BoringSSL-GRPC/ssl/d1_lib.cc:138-153 | the timer is expired exactly from less than 15 ms before the deadline on |
| Timer.AtMostTwelve | CourseworkIOS/Pods/BoringSSL-GRPC/ssl/d1_lib.cc:168-186 | between two stops the flight is sent again at the first 12 expiries and no other, and the MTU changes only from the third on and not below the minimum |
| Timer.BackoffExactly | CourseworkIOS/Pods/BoringSSL-GRPC/ssl/d1_lib.cc:155-160 | the duration is min(initial * 2^k, 60000) ms after k retransmissions in every run, exactly when the initial duration is at most 60000 ms |
| Timer.RetransmitTimer.StartTimer | CourseworkIOS/Pods/BoringSSL-GRPC/ssl/d1_lib.cc:120-136 | the field updates compute the specified timer |
| Timer.RetransmitTimer.DoubleTimeout | CourseworkIOS/Pods/BoringSSL-GRPC/ssl/d1_lib.cc:155-160 | doubles in 32 bits and caps at a minute |
| Timer.RetransmitTimer.StopTimer | CourseworkIOS/Pods/BoringSSL-GRPC/ssl/d1_lib.cc:162-166 | clears the count and the deadline and returns to the initial duration |
| Timer.RetransmitTimer.CheckTimeoutNum | CourseworkIOS/Pods/BoringSSL-GRPC/ssl/d1_lib.cc:168-186 | counts, takes over an acceptable fallback MTU, and gives up after 12 |
| Timer.RetransmitTimer.GetTimeout | CourseworkIOS/Pods/BoringSSL-GRPC/ssl/d1_lib.cc:197-245 | borrowing and clamping compute the remaining time |
| Timer.RetransmitTimer.HandleTimeout | CourseworkIOS/Pods/BoringSSL-GRPC/ssl/d1_lib.cc:247-267 | does nothing, gives up, or backs off and restarts |
| DownloadInvariants.DownloadKeeps | CourseworkIOS/Pods/AlamofireImage/Source/ImageDownloader.swift:279-421 | the block of download keeps the invariant |
| DownloadInvariants.CancelKeeps | CourseworkIOS/Pods/AlamofireImage/Source/ImageDownloader.swift:474-503 | so does cancelling: a handler that goes has no operation left |
| DownloadInvariants.RemovesItsOwn | CourseworkIOS/Pods/AlamofireImage/Source/ImageDownloader.swift:350-356 | between testing the handler's identity and removing it nothing can take its place |
| DownloadInvariants.StaleCompletion | CourseworkIOS/Pods/AlamofireImage/Source/ImageDownloader.swift:350-352 | a completion whose handler is no longer live dispatches nothing and leaves every handler alone |
| DownloadInvariants.RemoveKeeps | CourseworkIOS/Pods/AlamofireImage/Source/ImageDownloader.swift:354-391 | removing the handler dispatches each of its operations exactly once |
| DownloadInvariants.DecrementKeeps | CourseworkIOS/Pods/AlamofireImage/Source/ImageDownloader.swift:540-546 | what the count loses, an owed start makes up for |
| DownloadInvariants.StartFirstKeeps | CourseworkIOS/Pods/AlamofireImage/Source/ImageDownloader.swift:527-538 | the loop starts one suspended request or empties the queue |
| DownloadInvariants.StepKeeps | CourseworkIOS/Pods/AlamofireImage/Source/ImageDownloader.swift:290-546 | every block keeps the invariant |
| DownloadInvariants.OperationsAreConserved | CourseworkIOS/Pods/AlamofireImage/Source/ImageDownloader.swift:290-503 | in every interleaving an accepted operation is attached to the live handler of its URL and to no other, or its completion was dispatched exactly once |
| DownloadInvariants.QueueIsServed | CourseworkIOS/Pods/AlamofireImage/Source/ImageDownloader.swift:527-577 | the counter of active requests stays within the maximum, and with requests queued it and the completions that owe a start make up the maximum |
| DownloadInvariants.NoneIsStranded | CourseworkIOS/Pods/AlamofireImage/Source/ImageDownloader.swift:527-538 | when no request is under way and no completion owes a start, the queue is empty, and exactly the requests without a task that were not started still wait |
| DownloadOutcomes.StageIsResult | CourseworkIOS/Pods/AlamofireImage/Source/ImageDownloader.swift:339-391 | until its handler is removed, a request that ended carries its result |
| DownloadOutcomes.ToldExactly | CourseworkIOS/Pods/AlamofireImage/Source/ImageDownloader.swift:297-391 | over every run a completion is told success or failure exactly if the request to whose handler it was attached ended so, the cached image exactly if it was answered from the cache, and cancellation exactly if it was the first with the receipt that was cancelled |
| DownloadOutcomes.RemovesInOrder | CourseworkIOS/Pods/AlamofireImage/Source/ImageDownloader.swift:357-391 | the operations of a handler are told in the order in which they were accepted |
| DownloadOutcomes.CancelsExactly | CourseworkIOS/Pods/AlamofireImage/Source/ImageDownloader.swift:474-503 | a request is cancelled, and its handler goes, exactly when it is suspended and no operation would be left |
| DownloadOutcomes.CancelledNeverStarts | CourseworkIOS/Pods/AlamofireImage/Source/ImageDownloader.swift:527-538 | a request cancelled before it started never starts |
| StartOrder.RunKeepsOrder | CourseworkIOS/Pods/AlamofireImage/Source/ImageDownloader.swift:555-573 | the queue holds older requests before newer ones, or with last in, first out the other way |
| StartOrder.StartsNextInLine | CourseworkIOS/Pods/AlamofireImage/Source/ImageDownloader.swift:527-538 | the end of a completion, if there is room, starts the oldest suspended request, or with last in, first out the newest, and no other |
| StartOrder.StartsNoneOtherwise | CourseworkIOS/Pods/AlamofireImage/Source/ImageDownloader.swift:527-538 | without room, or with no suspended request, it starts none |
| DownloadLimits.StepIsCounted | CourseworkIOS/Pods/AlamofireImage/Source/ImageDownloader.swift:540-553 | the counter follows the requests under way at every step but two: one that never started is counted off in place of another, or one that started finds the counter at zero |
| DownloadLimits.UnderWayExactly | CourseworkIOS/Pods/AlamofireImage/Source/ImageDownloader.swift:540-553 | over every run the requests under way exceed the counter by exactly the steps of the first kind less those of the second |
| DownloadLimits.CountsExactly | CourseworkIOS/Pods/AlamofireImage/Source/ImageDownloader.swift:540-546 | the counter is the number of requests under way in every state of a run exactly when no step is of the first kind |
| DownloadLimits.WithinMaximum | CourseworkIOS/Pods/AlamofireImage/Source/ImageDownloader.swift:185 | as long as no request is cancelled before it starts, the requests under way stay within the maximum |
| DownloadLimits.TwoAtOnce | CourseworkIOS/Pods/AlamofireImage/Source/ImageDownloader.swift:498-546 | a run with a maximum of one and two tasks running: a queued request was cancelled and counted off |
| TasklessRequests.TasklessStays | CourseworkIOS/Pods/AlamofireImage/Source/ImageDownloader.swift:531-536 | no block touches a request without a task that was not started |
| TasklessRequests.TasklessStartsExactly | CourseworkIOS/Pods/AlamofireImage/Source/ImageDownloader.swift:409-414 | a new request without a task is started, then or ever, exactly when there was room for it when it was made; otherwise its handler stays for good |
| TasklessRequests.TasklessOperationWaits | CourseworkIOS/Pods/AlamofireImage/Source/ImageDownloader.swift:474-538 | over every run, an operation of a request without a task that was not started stays attached, or its completion is told that it was cancelled |
| TasklessRequests.TasklessWaits | CourseworkIOS/Pods/AlamofireImage/Source/ImageDownloader.swift:531-536 | a run that ends with nothing under way, an empty queue, and an operation that still waits |
| ImageDownloader.Downloader.Download | CourseworkIOS/Pods/AlamofireImage/Source/ImageDownloader.swift:279-421 | joins, answers from the cache, or makes a request and starts or queues it |
| ImageDownloader.Downloader.CancelRequest | CourseworkIOS/Pods/AlamofireImage/Source/ImageDownloader.swift:474-503 | removes the first operation with the receipt, and a suspended request with none left |
| ImageDownloader.Downloader.FetchResponseHandler | CourseworkIOS/Pods/AlamofireImage/Source/ImageDownloader.swift:350-352 | goes on to remove the handler exactly when the live one is the request's own |
| ImageDownloader.Downloader.RemoveResponseHandler | CourseworkIOS/Pods/AlamofireImage/Source/ImageDownloader.swift:517-525 | the loop dispatches every operation of the removed handler, in order |
| ImageDownloader.Downloader.DecrementActiveRequestCount | CourseworkIOS/Pods/AlamofireImage/Source/ImageDownloader.swift:540-546 | counts down, not below zero |
| ImageDownloader.Downloader.StartRequest | CourseworkIOS/Pods/AlamofireImage/Source/ImageDownloader.swift:550-553 | resumes the task and counts it |
| ImageDownloader.Downloader.Dequeue | CourseworkIOS/Pods/AlamofireImage/Source/ImageDownloader.swift:565-573 | takes the head of the queue, if there is one |
| ImageDownloader.Downloader.StartNextRequest | CourseworkIOS/Pods/AlamofireImage/Source/ImageDownloader.swift:527-538 | the dequeue loop starts the first suspended request |
| ImageDownloader.Downloader.EnqueueRequest | CourseworkIOS/Pods/AlamofireImage/Source/ImageDownloader.swift:555-562 | at the back or the front, by priority |
| ImageCache.SumWithout | CourseworkIOS/Pods/AlamofireImage/Source/ImageCache.swift:217-226 | the bytes of listed images are what their removal takes off the sum |
| ImageCache.AddKeeps | CourseworkIOS/Pods/AlamofireImage/Source/ImageCache.swift:189-198 | adding or replacing an image keeps the counter equal to the sum |
| ImageCache.EvictionsMinimal | CourseworkIOS/Pods/AlamofireImage/Source/ImageCache.swift:215-224 | the purge loop stops at the first image with which enough bytes are gone |
| ImageCache.PurgeSubtracts | CourseworkIOS/Pods/AlamofireImage/Source/ImageCache.swift:200-227 | the bytes purged are those of the images removed, so the counter does not underflow |
| ImageCache.PurgeEvictsOldest | CourseworkIOS/Pods/AlamofireImage/Source/ImageCache.swift:200-227 | a purge that fires leaves at most the preferred usage, evicts oldest first, and no image more than needed |
| ImageCache.RemoveMatchingKeeps | CourseworkIOS/Pods/AlamofireImage/Source/ImageCache.swift:249-263 | removing by prefix keeps the counter equal to the sum |
| ImageCache.StepKeeps | CourseworkIOS/Pods/AlamofireImage/Source/ImageCache.swift:188-331 | every block keeps the invariant |
| ImageCache.UsageIsSum | CourseworkIOS/Pods/AlamofireImage/Source/ImageCache.swift:188-331 | in every reachable state the counter is the sum of the stored bytes, and above the capacity a purge is on its way |
| CacheContents.BlockAt | CourseworkIOS/Pods/AlamofireImage/Source/ImageCache.swift:188-331 | what each block leaves under each identifier |
| CacheContents.PresentExactly | CourseworkIOS/Pods/AlamofireImage/Source/ImageCache.swift:188-331 | in every reachable state an image is in the cache exactly when it was added, and not since removed, matched, cleared or evicted |
| CacheContents.HoldsLastAdded | CourseworkIOS/Pods/AlamofireImage/Source/ImageCache.swift:188-331 | it has the bytes with which it was added last, and the date at which it was last added or fetched |
| CacheContents.EvictsByLastUse | CourseworkIOS/Pods/AlamofireImage/Source/ImageCache.swift:200-227 | a purge takes out an image only if every image it leaves was used at the same time or later |
| CacheContents.FetchFindsAdded | CourseworkIOS/Pods/AlamofireImage/Source/ImageCache.swift:188-331 | a fetch after an add finds what was added, and every other image is as before |
| CacheContents.OnePurgePerAdd | CourseworkIOS/Pods/AlamofireImage/Source/ImageCache.swift:188-200 | each add puts one purge on the queue |
| ImageCache.AutoPurgingImageCache.AddImage | CourseworkIOS/Pods/AlamofireImage/Source/ImageCache.swift:189-198 | the first block of add, without underflow |
| ImageCache.AutoPurgingImageCache.PurgeImages | CourseworkIOS/Pods/AlamofireImage/Source/ImageCache.swift:200-227 | the second block of add |
| ImageCache.AutoPurgingImageCache.EvictImages | CourseworkIOS/Pods/AlamofireImage/Source/ImageCache.swift:215-224 | the loop removes exactly the first images that make up the bytes to purge |
| ImageCache.AutoPurgingImageCache.RemoveImage | CourseworkIOS/Pods/AlamofireImage/Source/ImageCache.swift:271-282 | removes the image if it is there, says whether it was, and does not underflow |
| ImageCache.AutoPurgingImageCache.RemoveImagesMatching | CourseworkIOS/Pods/AlamofireImage/Source/ImageCache.swift:249-263 | removes exactly the images whose key has the prefix |
| ImageCache.AutoPurgingImageCache.RemoveAllImages | CourseworkIOS/Pods/AlamofireImage/Source/ImageCache.swift:288-301 | removes everything |
| ImageCache.AutoPurgingImageCache.Image | CourseworkIOS/Pods/AlamofireImage/Source/ImageCache.swift:321-331 | finds the image and renews its access date |

## Left out

nanopb:

- Extensions, callback, pointer and fixed-count fields, custom stream callbacks and `PB_WITHOUT_64BIT`: they bring in user code.
- The pods are built with `PB_ENABLE_MALLOC`; only static fields are modelled, for which it changes nothing but the release of pointer fields after an error.
- The destination struct is a field store passed by value, not raw memory; the iterator's addresses are computed but not dereferenced. What a failed decode leaves in it is not modelled.
- A string cell holds the characters last stored and not the rest of its array.
- VarintLimits.Decode32Exactly: speaks of varints of at most ten bytes; of longer ones, which no encoder writes, `VarintLimits.PositionWraps` is an example.
- Stream sizes are unbounded; a `size_t` overflow of the total message size is not modelled.
- Delimited and null-terminated message framing, `pb_release`, and error-message strings.

DTLS:

- Encryption and its failures: sealing keeps a record's type and payload, and its sealed length is any function with the source's bounds. Epochs after the first, alerts and replay detection are left out; a replayed record may always arrive again.
- Enabled: sequence numbers do not wrap and bodies have less than 2^24 bytes, as the source's 16-bit counter and 24-bit length field presume.
- Allocation failures, message callbacks, transcript hashing, `flight_has_reply`, the shutdown test and the final `BIO_flush` of `send_flight`, and the starts and stops of the timer from the sending side.
- The reading of the MTU from the transport (`dtls1_update_mtu`): every send may have another MTU.
- The 64-bit overflow of a deadline's seconds is not modelled.

Downloader and cache:

- URLSession, authentication, request retriers, image decoding and filters, and notification observers. Task states, whether a request gets a task, cache hits, sizes and dates are inputs.
- `ResponseHandler` objects are values in the map: a removed handler is not shared with any later block.
- A URL request that cannot be built: the new handler has no request to take its URL from, and the source stops with a runtime error (`CourseworkIOS/Pods/AlamofireImage/Source/ImageDownloader.swift:90`). A response without a request (line 343) needs such a request, so it is left out too, as is a completion that outlives the downloader.
- Adapters that rewrite the URL of a request: an adapter keeps it or refuses the request. `download` files a handler under the URL it was given and `cancelRequest` looks it up under the adapted one (`CourseworkIOS/Pods/AlamofireImage/Source/ImageDownloader.swift:476`, `CourseworkIOS/Pods/Alamofire/Source/Request.swift:108` and `:371-372`), so what cancelling does then is not modelled.
- The order of images with equal access dates is any that sorting may give. Byte counts are unbounded, where the source traps on a 64-bit overflow.
- Key prefixes compare characters; Unicode equivalence is not modelled.
