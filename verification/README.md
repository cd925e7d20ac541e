# Proofs about the vendored codecs and state machines of MoviePlayList

MoviePlayList is an iOS application. Its hard code is vendored under `MoviePlayList/Pods`. This project models three
parts of it and proves what they promise; `dafny verify dfyconfig.toml` checks everything.

**nanopb**, a table-driven Protocol Buffers codec. `Bits` holds the bit arithmetic of machine words. `Varint` holds the
base-128 and zigzag numbers with both readers. `PbTypes` models descriptors, structs and the sharing of slots inside
unions. `Encoding` and `Decoding` say, as functions, what the encoder produces and what the decoder makes of bytes.
`PbCommon` (the field iterator), `PbEncode` (output streams and every encoder) and `PbDecode` (input streams and every
decoder) are the C files in imperative form, proved against those functions. `RoundTrip`, `WireFormat`, `DecodedStructs`
and `Codec` relate the two directions. Descriptors are static: no callbacks, extensions or allocated members, and arrays
have a count.

**Alamofire's request concurrency.** `AuthenticationInterceptor`, `Request`, `DataStreamRequest` and `RequestTaskMap`
each hold a class with the fields of the source; `RequestPasses` follows `Request` through all passes of its
serializers, and `RequestStates` says how it is started. Each locked block is a method with a function that gives the
state after it. A run is any sequence of calls, queued closures and answers, one locked block at a time, and the results
hold over all runs. A serial queue is a sequence of closures, first in, first out.

**Alamofire's URL-encoded form encoder.** `FormComponent` models the containers that write strings at coding paths into
a shared context. `FormSerializer` models flattening, escaping and sorting, and a reader that undoes them. `FormOrder`
says when order survives sorting, and `FormKeys` which trees a reader can tell from their keys. `KeyEncoding` models the
camel-case splitter. A string is its UTF-8 octets.

## Conventions

- nanopb is modelled in its default build (64-bit integers, error messages, callback streams), with a 64-bit `size_t` and
  each of the three widths of `pb_size_t`. A struct is a sequence of slots, one per member; the entries of a union share
  one. Byte offsets appear in `PbCommon`, where they are the point.
- The authenticator answers each refresh once. The clock does not run backwards between two readings in one locked block.
- An encoder's outcome is a pair of success and the bytes produced; `Wrote` says what that means for a stream.

## Where the code does less than it promises

- `pb_dec_string` needs room for a terminator that `pb_enc_string` does not ask for. A string that fills its buffer is
  encoded, but not decoded (`RoundTrip.UnterminatedStringIsLost`; exactly when: `RoundTrip.MessageRoundTrip`).
- A response serializer appended after processing has looked for the next one in vain, and before it clears its arrays, is
  lost (`Request.LateSerializerIsLost`; exactly when: `Request.AllSerializersRunIff`).
- After the first pass, two appended serializers queue two look-ups, and the first serializer starts twice
  (`RequestPasses.FirstStartsTwice`; exactly when: `RequestPasses.DispatchedOnceIff`, and by the calls
  `RequestPasses.StartedOnceIff`).
- `retry` reads the credential before it takes the lock, and can have a credential refreshed that has been replaced
  meanwhile (`AuthenticationInterceptor.StaleCredentialIsRefreshed`; exactly when:
  `AuthenticationInterceptor.StaleRefreshIff`).
- An empty nested container, a key that occurs twice and an integer key each give a form tree other than that of the value
  (`FormComponent.EmptyContainerIsDropped`, `RepeatedKeyIsOverwritten`, `IntegerKeyMakesArray`; exactly when:
  `FormComponent.WritesBuildTheTree`).
- Only keyed values are documented as valid, but a list without any string in it is encoded, and a record with an integer
  key can be refused (`FormSerializer.ListIsEncodedIff`, `IntegerKeyIsRefused`; exactly when: `FormSerializer.EncodedIff`).
- Keys in brackets are documented for nested values, but a name with brackets, and an empty name, give the key of another
  tree (`FormKeys.BracketedNameLooksNested`, `EmptyNameLooksLikeArray`; exactly when: `FormKeys.KeyReadsBackIff`).
- Alphabetizing is documented for key and value pairs, but reorders the elements of arrays too
  (`FormOrder.ArrayOrderIsLost`; exactly when: `FormOrder.OrderSurvivesIff`, and by the segments of each container
  `FormOrder.StringsKeepOrderIff` and `FormOrder.OrderSurvivesIffAscending`).

## Model

| member | source | states |
|---|---|---|
| RoundTrip.MessageRoundTrip | MoviePlayList/Pods/nanopb/pb_encode.c:528-550 | For every static descriptor with distinct tags and every message that encodes in fewer than 2^32 bytes: pb_decode of the encoding succeeds if and only if every string written is terminated inside its buffer, leaves no byte over, and gives the message in normal form; and that is the message again, member by member at every depth, sent or not: a presence flag as it was, a string up to its terminator, and a singular zero as the default of the descriptor when that is another |
| RoundTrip.NormalIsSame | MoviePlayList/Pods/nanopb/pb_encode.c:240-425 | The same for the fields from any entry on: presence, value, count and member of each come back, without any reference to what the encoder leaves out |
| RoundTrip.SingularComesBack | MoviePlayList/Pods/nanopb/pb_encode.c:282-337 | A field without a presence flag and without a default value of its own comes back with its value, whether it was sent or left out |
| RoundTrip.ZeroIsNotSent | MoviePlayList/Pods/nanopb/pb_encode.c:282-337 | Such a field, unless it is a submessage, is left out if and only if it holds false, 0, no bytes or the empty string (bytes of a fixed length: if and only if that length is 0) |
| RoundTrip.ZeroMessageIsEmpty | MoviePlayList/Pods/nanopb/pb_encode.c:297-314 | A singular submessage counts as zero if and only if its own encoding is empty and none of its unions is set |
| RoundTrip.EncodableIff | MoviePlayList/Pods/nanopb/pb_encode.c:528-550 | A message can be encoded if and only if, at every depth, no array that is sent is longer than array_size and no bytes that are sent are longer than their field |
| DecodedStructs.NormalEncodesAlike | MoviePlayList/Pods/nanopb/pb_encode.c:528-550 | What comes back encodes to the same bytes again, when singular fields have no default value in the descriptor and every union that is set names one of its members |
| DecodedStructs.SingularEncodesAlikeIff | MoviePlayList/Pods/nanopb/pb_encode.c:282-337 | For one singular field, unless it is a submessage, the condition is exact: it comes back with another encoding if and only if it is zero and the descriptor gives a default value that is not |
| DecodedStructs.EmptyMessageIsForgotten | MoviePlayList/Pods/nanopb/pb_encode.c:297-314 | Where a union names no member: a singular submessage that holds nothing but such a union is sent, empty, and comes back as if it had not been |
| DecodedStructs.UnnamedUnionIsEmpty | MoviePlayList/Pods/nanopb/pb_encode.c:404-415 | Such a submessage: its union is set to a tag that the descriptor lacks |
| DecodedStructs.ZeroBecomesDefault | MoviePlayList/Pods/nanopb/pb_decode.c:871-887 | Where a singular field has another default value, a zero that comes back as that default and is sent from then on |
| RoundTrip.UnterminatedStringIsLost | MoviePlayList/Pods/nanopb/pb_decode.c:1468-1501 | A message that does not come back: a string that fills its buffer is encoded and then refused |
| DecodedStructs.DecodedStructIsSound | MoviePlayList/Pods/nanopb/pb_decode.c:1075-1087 | For any bytes: a successful pb_decode leaves a struct that matches its descriptor at every depth (integers in range, counts within array_size, strings terminated, which_ the tag of a member of its union) and can be encoded again, when the default values of the descriptor do |
| DecodedStructs.DecodedComesBack | MoviePlayList/Pods/nanopb/pb_decode.c:1075-1087 | Decoding, encoding and decoding again succeeds and gives the normal form of the first result |
| DecodedStructs.LoopIsSound | MoviePlayList/Pods/nanopb/pb_decode.c:925-986 | The decoding loop keeps a struct sound, whatever the bytes |
| DecodedStructs.DefaultsAreSound | MoviePlayList/Pods/nanopb/pb_decode.c:908-919 | Every struct starts sound when the default values of its descriptor are |
| RoundTrip.NormalMeaning | MoviePlayList/Pods/nanopb/pb_decode.c:836-919 | The normal form, slot by slot: what the one present entry delivers, and otherwise the default; which fields are sent is for ZeroIsNotSent, and what all of it means for NormalIsSame. A field that was not sent holds its default, an array its first count elements, a oneof its last member, strings and bytes end where their length says |
| RoundTrip.OneFills | MoviePlayList/Pods/nanopb/pb_encode.c:404-415 | At most one entry of a union is encoded, so one delivery determines a slot |
| RoundTrip.SingleTrip | MoviePlayList/Pods/nanopb/pb_decode.c:406-422 | One required, optional or oneof field, once encoded, is delivered to its slot by one turn of the decoding loop |
| RoundTrip.ArrayTrip | MoviePlayList/Pods/nanopb/pb_encode.c:147-235 | A repeated field, packed or not, comes back element for element |
| RoundTrip.ScalarTrip | MoviePlayList/Pods/nanopb/pb_encode.c:769-911 | Every field encoder is undone by the matching field decoder, whatever bytes follow, up to the normal form of the value |
| RoundTrip.TagTrip | MoviePlayList/Pods/nanopb/pb_decode.c:298-319 | A tag written for a field reads back as that wire type and field number |
| Codec.EncodeThenDecode | MoviePlayList/Pods/nanopb/pb_encode.c:528-550 | End to end on real buffers: measuring, writing into a buffer of the measured size and decoding it succeeds if and only if the message can be encoded and its strings are terminated, and returns the normal form, with every member as it was |
| PbEncode.SizingAgreesWithWriting | MoviePlayList/Pods/nanopb/pb_encode.c:528-579 | On any buffer stream: when pb_get_encoded_size gives n bytes, pb_encode succeeds if and only if n bytes remain, advances the stream by exactly n and leaves the encoding there; when it gives none, pb_encode fails; "submsg size changed" is never reported |
| PbEncode.WroteThen | MoviePlayList/Pods/nanopb/pb_encode.c:103-129 | Two calls in sequence on one stream act as one that produces both outputs: outcome, position, count and memory |
| PbEncode.EncodeToBuffer | MoviePlayList/Pods/nanopb/pb_encode.c:567-579 | A buffer of pb_get_encoded_size bytes always suffices and is filled with exactly the message |
| WireFormat.UnknownFieldsTransparent | MoviePlayList/Pods/nanopb/pb_decode.c:943-986 | A well-formed field with a non-zero tag that the descriptor lacks, inserted after any number of fields, changes neither the success of pb_decode_noinit nor the struct nor what is left unread |
| WireFormat.SkipsPayload | MoviePlayList/Pods/nanopb/pb_decode.c:321-332 | pb_skip_field consumes exactly a well-formed payload of its wire type |
| WireFormat.SkippedIsPayload | MoviePlayList/Pods/nanopb/pb_decode.c:321-332 | and consumes nothing else: whatever it skips is such a payload |
| WireFormat.SpliceStep | MoviePlayList/Pods/nanopb/pb_decode.c:943-986 | One turn of the decoding loop depends only on the bytes it consumes |
| WireFormat.PackedAndUnpackedAgree | MoviePlayList/Pods/nanopb/pb_decode.c:424-464 | Any mix of packed runs and single elements of a repeated scalar field decodes to the concatenation of the elements in wire order, and succeeds if and only if every element decodes and all fit array_size |
| WireFormat.PackedIsParse | MoviePlayList/Pods/nanopb/pb_decode.c:427-451 | The packed loop succeeds if and only if the payload is a run of whole elements that fits |
| WireFormat.RequiredFieldsAreChecked | MoviePlayList/Pods/nanopb/pb_decode.c:1030-1070 | When every field decodes, pb_decode_noinit succeeds if and only if each of the first 64 required entries was met at least once |
| WireFormat.HasFlagIffMet | MoviePlayList/Pods/nanopb/pb_decode.c:406-422 | After a successful pb_decode the has_ flag of an optional field is set if and only if a record of that field was met |
| WireFormat.UnmetSlotIsInitial | MoviePlayList/Pods/nanopb/pb_decode.c:836-919 | After a successful pb_decode a slot that no record reached is as it began: not present, empty, without a member, and with the default value of the descriptor or zero |
| WireFormat.SubmessagesMerge | MoviePlayList/Pods/nanopb/pb_decode.c:1503-1525 | A submessage sent in two records is merged: the decoder ends where it would with the bytes of both in one record |
| WireFormat.PiecesMerge | MoviePlayList/Pods/nanopb/pb_decode.c:925-1073 | Two runs of fields decoded one after the other into one struct give what they give together |
| WireFormat.WireTypeNumbers | MoviePlayList/Pods/nanopb/pb.h:319-324 | The wire types are the numbers 0, 1, 2 and 5, for the types the wire format assigns to each |
| WireFormat.NumberBytes | MoviePlayList/Pods/nanopb/pb_encode.c:769-850 | The bytes of a number: a varint of its 64-bit two complement, of itself or of its zigzag form, one byte 0 or 1 for a bool, and little-endian bytes for fixed widths |
| WireFormat.FramingBytes | MoviePlayList/Pods/nanopb/pb_encode.c:669-715 | A length-delimited payload is its length as a varint and its bytes; a tag is the varint of eight times the field number plus the wire type |
| WireFormat.EncodedValueIsSkipped | MoviePlayList/Pods/nanopb/pb_decode.c:321-332 | An encoded value is skipped whole by the wire type of its own field, whatever follows |
| WireFormat.AddedFieldIsSkipped | MoviePlayList/Pods/nanopb/pb_decode.c:943-986 | An encoded field is passed over by a decoder whose descriptor lacks it |
| WireFormat.ZeroTagEndsMessage | MoviePlayList/Pods/nanopb/pb_decode.c:298-319 | A zero tag ends the message and leaves what follows unread |
| RoundTrip.NarrowVarintMeaning | MoviePlayList/Pods/nanopb/pb_decode.c:1329-1367 | A varint field of up to 32 bits reads the int32 with the same low 32 bits, so a negative number in its 32-bit and in its 64-bit form, and fails when that does not fit; a 64-bit field reads the int64 |
| RoundTrip.NarrowMeaning | MoviePlayList/Pods/nanopb/pb_decode.c:1369-1412 | Unsigned and zigzag fields accept exactly the numbers of their width |
| PbDecode.BitSetIsExact | MoviePlayList/Pods/nanopb/pb_decode.c:1051-1069 | Comparing whole words of fields_seen with all ones and the last one with a shifted mask is the same as set inclusion |
| PbDecode.SetBitRecords | MoviePlayList/Pods/nanopb/pb_decode.c:1012-1017 | The shift and or that records a required field adds exactly that index to the recorded set |
| PbDecode.RequiredSeenByIndex | MoviePlayList/Pods/nanopb/pb_decode.c:1036-1049 | Having seen every required entry is having seen every index below the capped count of required entries |
| PbDecode.FoundIsUnique | MoviePlayList/Pods/nanopb/pb_common.c:78-95 | With distinct tags the search finds the same entry wherever it starts |
| Varint.VarintRoundTrip | MoviePlayList/Pods/nanopb/pb_encode.c:608-628 | pb_decode_varint reads back every 64-bit value and consumes exactly its encoding |
| Varint.EncodeFitsBuffer | MoviePlayList/Pods/nanopb/pb_encode.c:608-628 | The encoding of a 64-bit value has at most 10 bytes |
| Varint.EncodeMeaning | MoviePlayList/Pods/nanopb/pb_encode.c:608-628 | The encoding is one base-128 token whose value is the number, with no padding |
| Varint.EncodeIsCanonical | MoviePlayList/Pods/nanopb/pb_encode.c:608-628 | and it is the only such token |
| Varint.Decode64Token | MoviePlayList/Pods/nanopb/pb_decode.c:255-276 | pb_decode_varint accepts every token of at most 10 bytes, with its value modulo 2^64, and refuses longer ones |
| Varint.Decode32Token | MoviePlayList/Pods/nanopb/pb_decode.c:187-247 | Exactly which tokens of at most 10 bytes pb_decode_varint32_eof accepts, and their value modulo 2^32 |
| Varint.Reader32RefinesReader64 | MoviePlayList/Pods/nanopb/pb_decode.c:187-247 | Whatever pb_decode_varint32_eof accepts within 10 bytes, pb_decode_varint accepts too, over the same bytes and with the same value modulo 2^32 |
| Varint.Canonical32 | MoviePlayList/Pods/nanopb/pb_decode.c:187-247 | On the canonical encoding of v the 32-bit reader succeeds if and only if v satisfies Value32, a condition on its groups |
| Varint.Reader32Range | MoviePlayList/Pods/nanopb/pb_decode.c:187-247 | So it reads every v below 2^32 and every sign-extended negative int32, and refuses every v in [2^32, 2^63) |
| Varint.ZigZagMeaning | MoviePlayList/Pods/nanopb/pb_encode.c:630-639 | The zigzag form of an int64 is 2n or -2n-1, fits 64 bits, and is undone by the decoder |
| Varint.UnZigZagMeaning | MoviePlayList/Pods/nanopb/pb_decode.c:1269-1281 | Every 64-bit word is the zigzag form of the int64 it decodes to |
| PbCommon.WalkFindsMember | MoviePlayList/Pods/nanopb/pb_common.c:39-75 | On a descriptor laid out with correct offsets, pData after a walk to an entry is the address of its member, also inside unions |
| PbCommon.WalkFindsSize | MoviePlayList/Pods/nanopb/pb_common.c:39-75 | and pSize is the address of its has, count or which member |
| PbCommon.FieldIter.constructor | MoviePlayList/Pods/nanopb/pb_common.c:8-18 | A new iterator is at the first entry, with the state a fresh walk gives there |
| PbCommon.FieldIter.Begin | MoviePlayList/Pods/nanopb/pb_common.c:8-18 | Back at the first entry; reports whether there is one |
| PbCommon.FieldIter.Next | MoviePlayList/Pods/nanopb/pb_common.c:20-76 | One step in cyclic order, false exactly when it is at the start again; pData, pSize and required_field_index stay a function of the position |
| PbCommon.FieldIter.Find | MoviePlayList/Pods/nanopb/pb_common.c:78-95 | Finds a field if and only if some non-extension entry has the tag, stops at the first from the current one on within one cycle, and otherwise restores the position |
| PbEncode.OStream.FromBuffer | MoviePlayList/Pods/nanopb/pb_encode.c:86-101 | An empty stream over the buffer |
| PbEncode.OStream.Substream | MoviePlayList/Pods/nanopb/pb_encode.c:745-756 | The substream of a submessage: the same memory, from the parent position on, limited to the measured size |
| PbEncode.BufWrite | MoviePlayList/Pods/nanopb/pb_encode.c:74-84 | Copies the data in place and changes no other byte |
| PbEncode.PbWrite | MoviePlayList/Pods/nanopb/pb_encode.c:103-129 | Succeeds if and only if the data fits; then it is in memory at the old position and nothing else has changed. A sizing stream only counts |
| PbEncode.PbEncodeVarint | MoviePlayList/Pods/nanopb/pb_encode.c:608-628 | Writes exactly the varint; the 10-byte local buffer is never overrun |
| PbEncode.PbEncodeSvarint | MoviePlayList/Pods/nanopb/pb_encode.c:630-639 | Writes exactly the varint of the zigzag form |
| PbEncode.PbEncodeFixed32 | MoviePlayList/Pods/nanopb/pb_encode.c:641-651 | Writes the four little-endian bytes |
| PbEncode.PbEncodeFixed64 | MoviePlayList/Pods/nanopb/pb_encode.c:653-667 | Writes the eight little-endian bytes |
| PbEncode.PbEncodeTag | MoviePlayList/Pods/nanopb/pb_encode.c:669-673 | Writes the tag |
| PbEncode.PbEncodeString | MoviePlayList/Pods/nanopb/pb_encode.c:709-715 | Writes length and data |
| PbEncode.PbEncBool | MoviePlayList/Pods/nanopb/pb_encode.c:769-774 | Writes a bool as one varint, 0 or 1 |
| PbEncode.PbEncInteger | MoviePlayList/Pods/nanopb/pb_encode.c:776-833 | Writes a signed, unsigned or zigzag integer of any size as the specification says, sign-extending as the source does |
| PbEncode.PbEncBytes | MoviePlayList/Pods/nanopb/pb_encode.c:852-873 | Writes the bytes, or fails when their size exceeds the field |
| PbEncode.PbEncString | MoviePlayList/Pods/nanopb/pb_encode.c:875-899 | Writes up to the first NUL or the end of the field |
| PbEncode.EncodeScalarItem | MoviePlayList/Pods/nanopb/pb_encode.c:55-69 | Dispatch to the encoder of the type of the field: writes exactly what the specification of that type says |
| PbEncode.MeasurePacked | MoviePlayList/Pods/nanopb/pb_encode.c:166-190 | The size of a packed payload, by arithmetic for fixed-width elements and by a sizing stream otherwise, is its true size |
| PbEncode.EncodePackedPayload | MoviePlayList/Pods/nanopb/pb_encode.c:162-211 | Writes the length and the elements of a packed array |
| PbEncode.EncodeUnpackedItems | MoviePlayList/Pods/nanopb/pb_encode.c:213-232 | Writes a tag and an element for each element |
| PbEncode.EncodeArrayField | MoviePlayList/Pods/nanopb/pb_encode.c:147-235 | Nothing for an empty array, an error above array_size, else packed or unpacked |
| PbEncode.CheckProto3Default | MoviePlayList/Pods/nanopb/pb_encode.c:240-337 | Decides whether a field counts as zero, at any nesting depth: for a field without presence exactly when it is left out (ZeroIsNotSent, ZeroMessageIsEmpty) |
| PbEncode.PbEncodeSubmessage | MoviePlayList/Pods/nanopb/pb_encode.c:717-765 | Measures, writes the length, then writes exactly that many bytes or reports a full stream; the mismatch of the two passes is proved unreachable at any depth |
| PbEncode.WriteSubstream | MoviePlayList/Pods/nanopb/pb_encode.c:745-765 | The second pass fills the substream exactly and hands its position back to the parent |
| PbEncode.EncodeBasicField | MoviePlayList/Pods/nanopb/pb_encode.c:341-425 | Writes a field by its presence rule |
| PbEncode.PbEncode | MoviePlayList/Pods/nanopb/pb_encode.c:528-550 | The iterator loop writes the fields in order and stops at the first that fails; the memory beyond the output is untouched |
| PbEncode.PbGetEncodedSize | MoviePlayList/Pods/nanopb/pb_encode.c:567-579 | Succeeds if and only if the message can be encoded, with its exact size |
| PbDecode.PbReadByte | MoviePlayList/Pods/nanopb/pb_decode.c:141-157 | Reads one byte or fails at the end |
| PbDecode.PbRead | MoviePlayList/Pods/nanopb/pb_decode.c:102-137 | Reads exactly count bytes, or fails and consumes none |
| PbDecode.PbDecodeVarint | MoviePlayList/Pods/nanopb/pb_decode.c:255-276 | Refines the 64-bit varint specification |
| PbDecode.PbDecodeVarint32 | MoviePlayList/Pods/nanopb/pb_decode.c:187-247 | Refines the 32-bit varint specification; eof is reported if and only if nothing was left |
| PbDecode.PbDecodeTag | MoviePlayList/Pods/nanopb/pb_decode.c:298-319 | Splits a tag, and tells the end of the message from a bad tag |
| PbDecode.PbSkipVarint | MoviePlayList/Pods/nanopb/pb_decode.c:278-287 | Skips to the end of a varint |
| PbDecode.PbSkipField | MoviePlayList/Pods/nanopb/pb_decode.c:321-332 | Skips a payload by its wire type and refuses unknown types |
| PbDecode.PbMakeSubstream | MoviePlayList/Pods/nanopb/pb_decode.c:372-385 | The substream is exactly the announced bytes, and the parent keeps what follows them |
| PbDecode.PbCloseSubstream | MoviePlayList/Pods/nanopb/pb_decode.c:387-400 | Whatever the substream left is skipped, and the parent stands at its end |
| PbDecode.PbDecodeFixed32 | MoviePlayList/Pods/nanopb/pb_decode.c:1283-1296 | Reads a little-endian 32-bit word |
| PbDecode.PbDecodeFixed64 | MoviePlayList/Pods/nanopb/pb_decode.c:1298-1316 | Reads a little-endian 64-bit word |
| PbDecode.PbDecInteger | MoviePlayList/Pods/nanopb/pb_decode.c:1329-1412 | Cuts an integer to the width of the field and fails when that changes it |
| PbDecode.PbDecSized | MoviePlayList/Pods/nanopb/pb_decode.c:1431-1547 | Bytes, strings and fixed-length bytes, with their size checks and the room for the terminator |
| PbDecode.DecodeScalarItem | MoviePlayList/Pods/nanopb/pb_decode.c:68-83 | Dispatch to the decoder of the type of the field |
| PbDecode.DecodePackedItems | MoviePlayList/Pods/nanopb/pb_decode.c:427-451 | The packed branch of a repeated field |
| PbDecode.DecodeStaticField | MoviePlayList/Pods/nanopb/pb_decode.c:406-481 | Decodes one field into its slot by its presence rule, with the array and oneof cases |
| PbDecode.PbDecSubmessage | MoviePlayList/Pods/nanopb/pb_decode.c:1503-1525 | Decodes a submessage from a substream of its own; elements of arrays and oneofs start from their defaults |
| PbDecode.PbFieldSetToDefault | MoviePlayList/Pods/nanopb/pb_decode.c:836-906 | One field at its beginning: not present, empty or without a member, and its value the default of the descriptor or else zero, at every depth |
| PbDecode.PbSetToDefaults | MoviePlayList/Pods/nanopb/pb_decode.c:908-919 | Overwrites the whole struct with its defaults, whatever was in it |
| PbDecode.CountRequired | MoviePlayList/Pods/nanopb/pb_decode.c:1039-1047 | Walking the iterator to its end counts every required entry, wherever it starts |
| PbDecode.CheckRequired | MoviePlayList/Pods/nanopb/pb_decode.c:1030-1070 | The word and mask comparison decides whether every tracked required entry was seen |
| PbDecode.PbDecodeNoinit | MoviePlayList/Pods/nanopb/pb_decode.c:925-1073 | The whole loop refines the decoding specification |
| PbDecode.PbDecode | MoviePlayList/Pods/nanopb/pb_decode.c:1075-1087 | Defaults first, then the loop; refines the specification |
| Decoding.DefaultsSlot | MoviePlayList/Pods/nanopb/pb_decode.c:908-919 | The slot of every entry starts with the default of that entry, inside unions too: not present, empty or without a member, with the value of the descriptor or zero |
| Decoding.Find | MoviePlayList/Pods/nanopb/pb_common.c:78-95 | The first non-extension entry with the tag, or none |
| AuthenticationInterceptor.CompletionsAreConserved | MoviePlayList/Pods/Alamofire/Source/AuthenticationInterceptor.swift:251-403 | In every reachable state the completion of each adapt or retry call so far is in exactly one place: waiting, in a queued batch, with the call that is about to call it, or called; so none is called twice |
| AuthenticationInterceptor.OneRefreshAtATime | MoviePlayList/Pods/Alamofire/Source/AuthenticationInterceptor.swift:331-403 | In every reachable state at most one refresh is queued or unanswered, isRefreshing holds if and only if there is one, and completions wait only then |
| AuthenticationInterceptor.QuiescentMeansAllCalled | MoviePlayList/Pods/Alamofire/Source/AuthenticationInterceptor.swift:251-403 | Once no call is running, the queue is empty and every refresh is answered, every completion has been called exactly once |
| AuthenticationInterceptor.RefreshRateIsBounded | MoviePlayList/Pods/Alamofire/Source/AuthenticationInterceptor.swift:331-369 | Over any run every closed time interval of the length of the window holds at most maximumAttempts recorded refreshes, although check and recording read the clock separately |
| AuthenticationInterceptor.RefreshStartsIff | MoviePlayList/Pods/Alamofire/Source/AuthenticationInterceptor.swift:331-369 | The other half: with fewer recorded refreshes in the window that ends at the check than it allows, or without a window, the time is recorded and the authenticator is called; otherwise all waiting completions fail |
| AuthenticationInterceptor.RequestsAreJudged | MoviePlayList/Pods/Alamofire/Source/AuthenticationInterceptor.swift:294-318 | In every run: a request that did not fail its authentication, and no other, is told not to retry; one authenticated with an older credential is told to retry, or that the credential is missing |
| AuthenticationInterceptor.AuthenticatedIsFresh | MoviePlayList/Pods/Alamofire/Source/AuthenticationInterceptor.swift:251-290 | In every run no request is authenticated with a credential that requires a refresh |
| AuthenticationInterceptor.WaitingGetsItsAnswer | MoviePlayList/Pods/Alamofire/Source/AuthenticationInterceptor.swift:371-403 | A completion that waits for a refresh gets the answer to that refresh, whatever happens afterwards: its error after a failure, a retry after a success; in every later state it has been called with that outcome and with nothing else, or is in a queued batch that will do so, and once the queue is empty it has been called |
| AuthenticationInterceptor.StaleRefreshIff | MoviePlayList/Pods/Alamofire/Source/AuthenticationInterceptor.swift:308-339 | The locked block of retry starts a refresh with a credential other than the current one if and only if no refresh is in flight, another is not excessive and the credential has changed since it was read before the lock |
| AuthenticationInterceptor.StaleCredentialIsRefreshed | MoviePlayList/Pods/Alamofire/Source/AuthenticationInterceptor.swift:294-327 | A run in which that happens: two requests fail with one credential, the first has it refreshed between the reading and the lock of the second, and the second has the replaced credential refreshed again |
| AuthenticationInterceptor.StepBalance | MoviePlayList/Pods/Alamofire/Source/AuthenticationInterceptor.swift:251-403 | Every step leaves each completion in as many places as before, except the one it introduces |
| AuthenticationInterceptor.StepIsExclusive | MoviePlayList/Pods/Alamofire/Source/AuthenticationInterceptor.swift:331-403 | Every step keeps the exclusivity of refreshes |
| AuthenticationInterceptor.RefreshKeepsRate | MoviePlayList/Pods/Alamofire/Source/AuthenticationInterceptor.swift:331-339 | A refresh recorded after a passed check keeps the bound, also when the clock moved in between |
| AuthenticationInterceptor.Interceptor.constructor | MoviePlayList/Pods/Alamofire/Source/AuthenticationInterceptor.swift:241-247 | The initial state |
| AuthenticationInterceptor.Interceptor.IsRefreshExcessive | MoviePlayList/Pods/Alamofire/Source/AuthenticationInterceptor.swift:356-369 | True if and only if there is a window and at least maximumAttempts recorded times are at or after its start |
| AuthenticationInterceptor.Interceptor.HandleRefreshFailure | MoviePlayList/Pods/Alamofire/Source/AuthenticationInterceptor.swift:389-403 | Empties both lists into one failure batch and ends the refresh |
| AuthenticationInterceptor.Interceptor.HandleRefreshSuccess | MoviePlayList/Pods/Alamofire/Source/AuthenticationInterceptor.swift:371-387 | Stores the credential, empties both lists into one success batch and ends the refresh |
| AuthenticationInterceptor.Interceptor.Refresh | MoviePlayList/Pods/Alamofire/Source/AuthenticationInterceptor.swift:331-354 | Fails at once when excessive, else records the time and queues the refresh |
| AuthenticationInterceptor.Interceptor.AdaptLocked | MoviePlayList/Pods/Alamofire/Source/AuthenticationInterceptor.swift:252-275 | The locked block of adapt: deferred, refused or adapted |
| AuthenticationInterceptor.Interceptor.RetryLocked | MoviePlayList/Pods/Alamofire/Source/AuthenticationInterceptor.swift:320-326 | The locked block of retry, with the credential read before it |
| Request.SerializersRunInOrder | MoviePlayList/Pods/Alamofire/Source/Request.swift:511-608 | In every run without retry, up to the first end of processing: serializers start in the order of appending and each once; no completion runs before, and then they run in that same order |
| Request.AllSerializersRunIff | MoviePlayList/Pods/Alamofire/Source/Request.swift:552-599 | By then every serializer appended has run if and only if none was appended between the look-up that found none left and the locked block that clears the arrays |
| Request.LateSerializerIsLost | MoviePlayList/Pods/Alamofire/Source/Request.swift:531-599 | A concrete run in which a serializer appended in that gap is cleared without having started, with nothing queued that would process it |
| Request.StepKeepsPass | MoviePlayList/Pods/Alamofire/Source/Request.swift:511-608 | Every step of the first pass keeps its invariant or ends the pass |
| RequestPasses.DispatchedOnceIff | MoviePlayList/Pods/Alamofire/Source/Request.swift:511-608 | In every run, over all passes: no serializer is dispatched twice if and only if no look-up comes while one is dispatched and not completed; then the serializers, but for the late ones appended in a gap between look-up and clearing, are dispatched in the order of appending, and completions run in that order |
| RequestPasses.StartedOnceIff | MoviePlayList/Pods/Alamofire/Source/Request.swift:511-608 | The condition on the calls: with no collision, an append after the first pass while a look-up or a serializer is still to come or a finish that starts a pass while serializers wait, none starts twice in any run; in a run that ends quiet none has started twice if and only if there was no collision; then, once processing has finished, exactly the serializers that were not late have started and their completions have run, both in the order of appending |
| RequestPasses.FirstStartsTwice | MoviePlayList/Pods/Alamofire/Source/Request.swift:531-599 | Two serializers appended to a finished request: the first one starts twice before it has completed |
| RequestPasses.StepKeepsOrder | MoviePlayList/Pods/Alamofire/Source/Request.swift:511-608 | Every step without an overlapping look-up keeps the order of dispatch and of completions |
| RequestPasses.CollisionDooms | MoviePlayList/Pods/Alamofire/Source/Request.swift:511-599 | A collision leaves two look-ups to come for what waits |
| RequestPasses.DoomedRunOverlaps | MoviePlayList/Pods/Alamofire/Source/Request.swift:552-608 | and then every run that goes on until all is quiet has an overlapping look-up, whatever else happens |
| RequestStates.AppendedRequestIsResumed | MoviePlayList/Pods/Alamofire/Source/Request.swift:531-547 | A request is started by its first response serializer: once all that was on the underlying queue before has been taken, however the run goes on meanwhile, the closure left there resumes a request that nobody cancelled or suspended and that has not finished, and asks a live task to resume |
| RequestStates.AppendQueuesResume | MoviePlayList/Pods/Alamofire/Source/Request.swift:531-547 | Appending leaves that closure if and as the request can be resumed, revives a finished request, and queues a look-up once processing has finished |
| RequestStates.ChangeMeaning | MoviePlayList/Pods/Alamofire/Source/Request.swift:667-729 | From which states a request can be resumed, suspended and cancelled, what it then asks of a live task, and that otherwise nothing changes |
| RequestStates.QueueMoves | MoviePlayList/Pods/Alamofire/Source/Request.swift:531-547 | Over any run closures are taken from the front of the underlying queue and added at its end |
| Request.CancelledIsFinal | MoviePlayList/Pods/Alamofire/Source/Request.swift:50-72 | A cancelled request stays cancelled over every run |
| Request.Request.AppendResponseSerializer | MoviePlayList/Pods/Alamofire/Source/Request.swift:531-547 | The locked block: appends, revives a finished request, queues processing when it had finished, queues the resume |
| Request.Request.ProcessNextResponseSerializer | MoviePlayList/Pods/Alamofire/Source/Request.swift:552-571 | Dispatches the serializer whose index is the number of completions, if there is one |
| Request.Request.ClearProcessed | MoviePlayList/Pods/Alamofire/Source/Request.swift:572-599 | Takes the completions, clears both arrays, finishes the state if it may, and marks processing finished |
| Request.Request.Cancel | MoviePlayList/Pods/Alamofire/Source/Request.swift:667-687 | Nothing unless the transition is allowed; then the state, the notification, and either the end of the request or the resuming and cancelling of its live task with a notification |
| Request.Request.Suspend | MoviePlayList/Pods/Alamofire/Source/Request.swift:693-708 | Nothing unless the transition is allowed; then the state, the notifications and the suspending of a live task |
| Request.Request.Resume | MoviePlayList/Pods/Alamofire/Source/Request.swift:714-729 | Nothing unless the transition is allowed; then the state, the notifications and the resuming of a live task |
| Request.NothingAfterCancel | MoviePlayList/Pods/Alamofire/Source/Request.swift:667-729 | In every run, once a request has cancelled its task it neither resumes nor suspends nor cancels it again |
| Request.Request.RunHead | MoviePlayList/Pods/Alamofire/Source/Request.swift:511-524 | The first locked block of the next closure on the underlying queue; a second finish is ignored while one is under way |
| DataStreamRequest.CountIsExact | MoviePlayList/Pods/Alamofire/Source/Request.swift:1299-1313 | In every reachable state numberOfExecutingStreams is the number of callbacks scheduled, or still to be scheduled, and not retired; completions are enqueued only while it is positive |
| DataStreamRequest.CompletionsAreConserved | MoviePlayList/Pods/Alamofire/Source/Request.swift:1372-1403 | In every reachable state the completion of each stream is in exactly one place: held by its response serializer, enqueued, let go, or lost with a serializer that was cleared away |
| DataStreamRequest.CompletionsWaitForDrain | MoviePlayList/Pods/Alamofire/Source/ResponseSerialization.swift:1048-1058 | A step that lets a completion go does so at a moment when no callback is left to be scheduled or retired, and for the first time |
| DataStreamRequest.DrainedMeansAllHanded | MoviePlayList/Pods/Alamofire/Source/Request.swift:1372-1403 | Once everything has drained, the completion of a stream has been handed to its queue, exactly once, if and only if it was not lost with its serializer |
| DataStreamRequest.DataIsWrittenInOrder | MoviePlayList/Pods/Alamofire/Source/Request.swift:1291-1313 | In every reachable state each output stream has got, in order of reception, the data received while it was in use, up to the moment finish closed it; what came to be written after that is dropped, and the rest is still on the queue |
| DataStreamRequest.StreamsGetTheirData | MoviePlayList/Pods/Alamofire/Source/Request.swift:1299-1313 | In every reachable state each stream has been called, in order of reception and once each, with the data received since it was added, but for what closures on the underlying queue are still to call it with |
| DataStreamRequest.DataStreamRequest.OpenOutputStream | MoviePlayList/Pods/Alamofire/Source/Request.swift:1349-1361 | A new output stream is in use from then on |
| DataStreamRequest.DataStreamRequest.Finish | MoviePlayList/Pods/Alamofire/Source/Request.swift:1291-1297 | Closes the output stream that is in use, if there is one |
| DataStreamRequest.StepBalance | MoviePlayList/Pods/Alamofire/Source/Request.swift:1299-1391 | Per step: each completion stays in as many places, except the one that is added, and none is taken back |
| DataStreamRequest.StepLetsGoAtZero | MoviePlayList/Pods/Alamofire/Source/ResponseSerialization.swift:1048-1058 | Per step: a completion is let go only when no callback is left to be scheduled or retired |
| DataStreamRequest.DataStreamRequest.AppendStream | MoviePlayList/Pods/Alamofire/Source/ResponseSerialization.swift:1007 | Adds a stream |
| DataStreamRequest.DataStreamRequest.DidReceive | MoviePlayList/Pods/Alamofire/Source/Request.swift:1299-1313 | Queues the data for the output stream if there is one, counts the streams there are and queues the data for exactly those |
| DataStreamRequest.DataStreamRequest.StreamCompletion | MoviePlayList/Pods/Alamofire/Source/Request.swift:1377-1387 | Enqueues the completion unless nothing is executing |
| DataStreamRequest.DataStreamRequest.UpdateAndCompleteIfPossible | MoviePlayList/Pods/Alamofire/Source/ResponseSerialization.swift:1048-1058 | Retires one callback; the last one releases all enqueued completions in order |
| RequestTaskMap.MapStaysConsistent | MoviePlayList/Pods/Alamofire/Source/RequestTaskMap.swift:47-148 | From the empty map no run meets a consistency error, the two maps stay inverse to each other, events are kept for exactly the mapped tasks, and all counts agree |
| RequestTaskMap.LeavesAtSecondEvent | MoviePlayList/Pods/Alamofire/Source/RequestTaskMap.swift:115-148 | A mapped task leaves exactly at its second event, in either order, the call says so, and no other task leaves |
| RequestTaskMap.AssociateConsistentIff | MoviePlayList/Pods/Alamofire/Source/RequestTaskMap.swift:62-64 | Associating keeps the maps inverse if and only if neither side is mapped to something else |
| RequestTaskMap.CountsAgree | MoviePlayList/Pods/Alamofire/Source/RequestTaskMap.swift:89-113 | In a consistent map all three counts and emptiness tests agree, so none of the preconditions fails |
| RequestTaskMap.RemoveKeepsConsistent | MoviePlayList/Pods/Alamofire/Source/RequestTaskMap.swift:76-78 | Removing a mapped pair keeps the maps inverse |
| RequestTaskMap.Map.SetTask | MoviePlayList/Pods/Alamofire/Source/RequestTaskMap.swift:47-66 | The setter by request: removal, its fatal error, or association |
| RequestTaskMap.Map.SetRequest | MoviePlayList/Pods/Alamofire/Source/RequestTaskMap.swift:68-87 | The setter by task |
| RequestTaskMap.Map.AfterGatheringMetrics | MoviePlayList/Pods/Alamofire/Source/RequestTaskMap.swift:115-125 | Records the event or removes the task, and the fatal errors |
| RequestTaskMap.Map.AfterCompleting | MoviePlayList/Pods/Alamofire/Source/RequestTaskMap.swift:127-148 | The same for completion |
| FormComponent.WritesBuildTheTree | MoviePlayList/Pods/Alamofire/Source/URLEncodedFormEncoder.swift:497-547 | For every value without nil: the writes made in traversal order into a new context build exactly the tree of the value, key and element order included, if and only if no container in it is empty and each record has distinct keys that are no integers; or the value is the empty record |
| FormComponent.EmptyContainerIsDropped | MoviePlayList/Pods/Alamofire/Source/URLEncodedFormEncoder.swift:497-547 | A value whose tree is not built: an empty container below a key leaves no trace |
| FormComponent.RepeatedKeyIsOverwritten | MoviePlayList/Pods/Alamofire/Source/URLEncodedFormEncoder.swift:537-541 | A value whose tree is not built: the second value under a key replaces the first |
| FormComponent.IntegerKeyMakesArray | MoviePlayList/Pods/Alamofire/Source/URLEncodedFormEncoder.swift:524-534 | A value whose tree is not built: a record with an integer key becomes an array |
| FormComponent.LastWriteDecides | MoviePlayList/Pods/Alamofire/Source/URLEncodedFormEncoder.swift:497-547 | The last write alone decides whether the context ends as a string, an array or an object |
| FormComponent.ApplyIsWellBuilt | MoviePlayList/Pods/Alamofire/Source/URLEncodedFormEncoder.swift:497-547 | Whatever is written, in whatever order, the result has no empty container and no key twice |
| FormComponent.MembersAreNames | MoviePlayList/Pods/Alamofire/Source/URLEncodedFormEncoder.swift:524-546 | A record gives an object no more members than it has keys that are no integers |
| FormComponent.ApplyUnder | MoviePlayList/Pods/Alamofire/Source/URLEncodedFormEncoder.swift:503-522 | All writes below one key together replace what is under it by what they make of it |
| FormComponent.CleanIsBuilt | MoviePlayList/Pods/Alamofire/Source/URLEncodedFormEncoder.swift:497-547 | The forward half, by induction over the value |
| FormComponent.BuiltIsClean | MoviePlayList/Pods/Alamofire/Source/URLEncodedFormEncoder.swift:497-547 | The backward half |
| FormComponent.Set | MoviePlayList/Pods/Alamofire/Source/URLEncodedFormEncoder.swift:497-547 | The recursive set, branch by branch, computes the specification |
| FormComponent.Context.SetTo | MoviePlayList/Pods/Alamofire/Source/URLEncodedFormEncoder.swift:492-494 | set(to:at:) on the shared context |
| FormComponent.SingleValueContainer.EncodeText | MoviePlayList/Pods/Alamofire/Source/URLEncodedFormEncoder.swift:758-763 | Writes once; a second value is an error and changes nothing |
| FormComponent.SingleValueContainer.Encode | MoviePlayList/Pods/Alamofire/Source/URLEncodedFormEncoder.swift:789-799 | Once: makes the writes of the nested value at the path of the container, up to its first nil, and fails if there is one |
| FormComponent.KeyedContainer.Encode | MoviePlayList/Pods/Alamofire/Source/URLEncodedFormEncoder.swift:607-610 | Makes the writes of the value below the key, up to its first nil, and fails if there is one |
| FormComponent.UnkeyedContainer.Encode | MoviePlayList/Pods/Alamofire/Source/URLEncodedFormEncoder.swift:837-850 | Makes the writes of the value below the next index, up to its first nil, and counts it; fails if there is one |
| FormComponent.EncodeTo | MoviePlayList/Pods/Alamofire/Source/URLEncodedFormEncoder.swift:427-452 | Makes the writes of the value in traversal order up to its first nil, and fails if and only if there is one |
| FormComponent.EncodeComponent | MoviePlayList/Pods/Alamofire/Source/URLEncodedFormEncoder.swift:354-363 | The component built for a value in a new context |
| FormSerializer.SerialisationLosesNothing | MoviePlayList/Pods/Alamofire/Source/URLEncodedFormEncoder.swift:903-950 | Splitting the query at "&" and "=" and undoing the escaping gives exactly the value of every string under the key of its path (its first name, each further name in brackets, and empty brackets or nothing for an array), and a blank for each empty container: in order, or as a multiset when alphabetized; for every array, key and space encoding, and all allowed characters that leave the syntax escaped as the defaults do |
| FormSerializer.OnlyPairsIffNoEmptyContainer | MoviePlayList/Pods/Alamofire/Source/URLEncodedFormEncoder.swift:914-940 | What is read back is pairs alone if and only if no container is empty |
| FormSerializer.UnescapedEscape | MoviePlayList/Pods/Alamofire/Source/URLEncodedFormEncoder.swift:942-949 | Escaping can be undone for either space encoding |
| FormSerializer.EscapeHasNoDelimiter | MoviePlayList/Pods/Alamofire/Source/URLEncodedFormEncoder.swift:942-949 | Escaped text contains neither "&" nor "=" |
| FormSerializer.DefaultCharactersAreSafe | MoviePlayList/Pods/Alamofire/Source/URLEncodedFormEncoder.swift:969-975 | The default allowed characters escape every delimiter of sections 2.1 and 3.4 of RFC 3986 except "?" and "/", and every octet outside ASCII |
| FormSerializer.DefaultCharacters | MoviePlayList/Pods/Alamofire/Source/URLEncodedFormEncoder.swift:969-975 | They are letters, digits and the six characters "-._~/?", and no others |
| FormSerializer.ReadKeyValue | MoviePlayList/Pods/Alamofire/Source/URLEncodedFormEncoder.swift:916 | A pair reads back as it was |
| FormSerializer.ReadOrdered | MoviePlayList/Pods/Alamofire/Source/URLEncodedFormEncoder.swift:932-940 | Joining segments, sorted or not, keeps what each of them says |
| FormSerializer.SortedIsAscending | MoviePlayList/Pods/Alamofire/Source/URLEncodedFormEncoder.swift:909 | Sorting gives an ascending permutation |
| FormSerializer.AlphabetizedIsCanonical | MoviePlayList/Pods/Alamofire/Source/URLEncodedFormEncoder.swift:305-308 | Alphabetized output is the same for all orders in which the entries of containers are stored, at every level |
| FormSerializer.Serializer.SerializeRoot | MoviePlayList/Pods/Alamofire/Source/URLEncodedFormEncoder.swift:903-912 | The loop over the root object |
| FormSerializer.Encode | MoviePlayList/Pods/Alamofire/Source/URLEncodedFormEncoder.swift:371-386 | Nil values and roots that are no objects are errors, everything else is serialized |
| FormSerializer.EncodedFormReadsBack | MoviePlayList/Pods/Alamofire/Source/URLEncodedFormEncoder.swift:371-386 | From value to query and back: for a record that builds its tree the reader finds exactly the value of each of its strings under the key of its path, in their order unless the pairs are alphabetized |
| FormKeys.FormComesBack | MoviePlayList/Pods/Alamofire/Source/URLEncodedFormEncoder.swift:371-386 | With default keys and readable paths a reader that also takes the keys apart finds every string of the value at its path: in order, or in any order when the pairs are alphabetized; without brackets for arrays it finds the names of the path |
| FormKeys.KeyReadsBackIff | MoviePlayList/Pods/Alamofire/Source/URLEncodedFormEncoder.swift:914-940 | A bracketed key tells its path if and only if its first name has no opening bracket and its further names are not empty and have no closing bracket |
| FormKeys.EmptyNameLooksLikeArray | MoviePlayList/Pods/Alamofire/Source/URLEncodedFormEncoder.swift:923-926 | Two values with one query: an empty name below the root and an array |
| FormKeys.BracketedNameLooksNested | MoviePlayList/Pods/Alamofire/Source/URLEncodedFormEncoder.swift:923-926 | Two values with one query: a name with brackets and a name below another |
| FormSerializer.LinesAreLeaves | MoviePlayList/Pods/Alamofire/Source/URLEncodedFormEncoder.swift:914-940 | The key of every string below the root is the key of its path |
| FormSerializer.OctetIsEscaped | MoviePlayList/Pods/Alamofire/Source/URLEncodedFormEncoder.swift:281-288 | A space becomes "%20" or a plus sign by the space encoding, an allowed octet stays, any other becomes a percent sign and two upper-case hexadecimal digits |
| FormSerializer.EscapeConcat | MoviePlayList/Pods/Alamofire/Source/URLEncodedFormEncoder.swift:942-949 | Text is escaped octet by octet |
| FormSerializer.AtMostMeaning | MoviePlayList/Pods/Alamofire/Source/URLEncodedFormEncoder.swift:909 | The order of strings: a prefix comes first, and otherwise the first octet that differs decides |
| FormSerializer.EncodedIff | MoviePlayList/Pods/Alamofire/Source/URLEncodedFormEncoder.swift:371-386 | Which values are encoded, exactly: those without nil that hold no string, or whose last string is below a key of the root that is no integer |
| FormSerializer.ListIsEncodedIff | MoviePlayList/Pods/Alamofire/Source/URLEncodedFormEncoder.swift:374-376 | A list is refused, as documented, unless it has no string in it; then it is encoded as the empty query |
| FormSerializer.RecordIsEncoded | MoviePlayList/Pods/Alamofire/Source/URLEncodedFormEncoder.swift:374-376 | A record none of whose own keys is an integer is encoded |
| FormSerializer.IntegerKeyIsRefused | MoviePlayList/Pods/Alamofire/Source/URLEncodedFormEncoder.swift:374-376 | A keyed value that is refused: a record with an integer key |
| FormOrder.OrderSurvivesIff | MoviePlayList/Pods/Alamofire/Source/URLEncodedFormEncoder.swift:914-940 | The order of a component survives its serialisation if and only if alphabetizing leaves the text as it is |
| FormOrder.QueryOrderSurvivesIff | MoviePlayList/Pods/Alamofire/Source/URLEncodedFormEncoder.swift:903-912 | The same for a whole query |
| FormOrder.StringsKeepOrderIff | MoviePlayList/Pods/Alamofire/Source/URLEncodedFormEncoder.swift:932-940 | An array of strings keeps its order if and only if its segments are ascending |
| FormOrder.OrderSurvivesIffAscending | MoviePlayList/Pods/Alamofire/Source/URLEncodedFormEncoder.swift:914-940 | For a tree in which no line is repeated the order survives if and only if every container is ascending, at every level |
| FormOrder.QueryOrderSurvivesIffAscending | MoviePlayList/Pods/Alamofire/Source/URLEncodedFormEncoder.swift:903-912 | The same for a whole query |
| FormOrder.AscendingIsUnmoved | MoviePlayList/Pods/Alamofire/Source/URLEncodedFormEncoder.swift:914-940 | Ascending at every level is enough for any tree: nothing moves |
| FormOrder.RepeatedLineHidesMove | MoviePlayList/Pods/Alamofire/Source/URLEncodedFormEncoder.swift:932-940 | With a repeated line it is not needed: a tree that is not ascending and keeps its order |
| FormOrder.ArrayOrderIsLost | MoviePlayList/Pods/Alamofire/Source/URLEncodedFormEncoder.swift:932-940 | An array that loses its order: two different strings give the same query in either order, and the lines of the two orders differ |
| FormOrder.SortedIffAscending | MoviePlayList/Pods/Alamofire/Source/URLEncodedFormEncoder.swift:909 | Sorting leaves segments as they are if and only if they are ascending |
| FormOrder.LinesDetermineQuery | MoviePlayList/Pods/Alamofire/Source/URLEncodedFormEncoder.swift:914-950 | Two serialized texts that read back alike are the same text |
| KeyEncoding.Convert | MoviePlayList/Pods/Alamofire/Source/URLEncodedFormEncoder.swift:215-267 | The loop cuts the key exactly at its word boundaries and joins the words in lower case; it terminates |
| KeyEncoding.WordsPartitionKey | MoviePlayList/Pods/Alamofire/Source/URLEncodedFormEncoder.swift:215-261 | The words of a non-empty key are non-empty ranges that follow one another from its start to its end |
| KeyEncoding.WordsBeginAtBoundaries | MoviePlayList/Pods/Alamofire/Source/URLEncodedFormEncoder.swift:231-260 | A word begins inside the key exactly at a boundary |
| KeyEncoding.ConvertedWithoutSeparator | MoviePlayList/Pods/Alamofire/Source/URLEncodedFormEncoder.swift:262-264 | Joined with no separator the words give the key in lower case |
| KeyEncoding.ConvertedTwice | MoviePlayList/Pods/Alamofire/Source/URLEncodedFormEncoder.swift:207-213 | Conversion is idempotent for any separator without capitals |
| KeyEncoding.ConvertedWithoutUpper | MoviePlayList/Pods/Alamofire/Source/URLEncodedFormEncoder.swift:215-267 | A key without capitals is left as it is |
| KeyEncoding.CasesOfKeys | MoviePlayList/Pods/Alamofire/Source/URLEncodedFormEncoder.swift:195-205 | Default keys are left alone; upper and lower case change every letter, and capitalized keys the first one |
| KeyEncoding.SnakeAndKebab | MoviePlayList/Pods/Alamofire/Source/URLEncodedFormEncoder.swift:207-213 | Snake case puts an underscore, and kebab case a hyphen, in front of a capital that lower-case letters follow |
| KeyEncoding.AcronymKey | MoviePlayList/Pods/Alamofire/Source/URLEncodedFormEncoder.swift:215-267 | A run of capitals is one word, without its last one when a lower-case letter follows |

## Left out

- nanopb's callback fields, extensions, allocated fields and their release, and fixed-count arrays: foreign calls or raw memory.
- nanopb's `PB_WITHOUT_64BIT`, `PB_BUFFER_ONLY`, `PB_OLD_CALLBACK_STYLE` and `PB_NO_ERRMSG` builds; only the encoder's error
  texts are distinguished, as far as "submsg size changed" needs it.
- pb_encode_delimited, pb_encode_nullterminated and their decoders: short wrappers that would only add easy members.
- Varint.Reader32RefinesReader64: limited to encodings of at most 10 bytes, because beyond them `bitpos` may wrap in its type.
- PbEncode.PbEncode: a buffer stream is assumed not to wrap `size_t`, because past that point the room check of
  pb_encode_submessage wraps too; on a sizing stream the count wraps as in the source.
- PbEncode.EncodeUnpackedItems: the same assumption on a buffer stream.
- PbEncode.EncodeArrayField: the same assumption on a buffer stream.
- PbEncode.EncodeBasicField: the same assumption on a buffer stream.
- PbEncode.PbEncodeSubmessage: the same assumption on a buffer stream.
- PbEncode.SizingAgreesWithWriting: the same assumption.
- PbDecode.PbDecodeNoinit: the struct is passed in and returned as a value instead of being changed in place, so its content
  after a failed decode and the bytes behind a shorter string or array are not described.
- PbDecode.PbDecode: the same, for the struct after a failed decode.
- PbDecode.DecodeStaticField: the same, for the slot after a failed decode.
- DecodedStructs.DecodedStructIsSound: default values of the descriptor are assumed to be sound themselves; the decoder
  copies them as they are.
- RoundTrip.MessageRoundTrip: one value per field element; memory layout, padding and stale bytes are below this model.
- DecodedStructs.NormalEncodesAlike: the two conditions are sufficient for a whole message; the exact one is stated for a single
  field (`DecodedStructs.SingularEncodesAlikeIff`), and for a union (`DecodedStructs.EmptyMessageIsForgotten`).
- PbCommon.FieldIter.Find: on an empty descriptor the search for tag 0 succeeds at the end entry, as in the source.
- AuthenticationInterceptor.RefreshRateIsBounded: the window is fixed for the run.
- Request.SerializersRunInOrder: ends with the first pass of processing; the later ones are in `RequestPasses`. Retry and reset
  are not modelled.
- RequestPasses.StartedOnceIff: serializers are told apart by their identifiers, which are taken to differ.
- Request.Request.Cancel: notifications are queued closures without effect, and the calls on the task are only recorded.
- RequestTaskMap.LeavesAtSecondEvent: platforms that gather metrics; the branches for Linux and old watchOS remove at once.
- FormComponent.Set: integer keys are not negative; the source stops on a negative index.
- FormComponent.EncodeTo: leaves out the nested containers and superEncoder of the containers, and the texts of numbers,
  dates and data; the nested ones use the same coding paths.
- FormSerializer.SortedIsAscending: strings are compared by octets, which is the order of escaped text; unescaped text outside
  ASCII could be ordered otherwise.
- KeyEncoding.Convert: upper and lower case are those of ASCII.
- KeyEncoding.CasesOfKeys: the same.
- DataStreamRequest.DrainedMeansAllHanded: takes the response serializer of each stream to run at most once, which
  `RequestPasses.StartedOnceIff` makes precise; which serializers are late is for `Request.AllSerializersRunIff`.
- DataStreamRequest.CompletionsWaitForDrain: that it is the first time rests on the same assumption.
- DataStreamRequest.DataStreamRequest.DidReceive: a write to an open output stream takes all of the data.
- DataStreamRequest.StreamsGetTheirData: a stream counts as called when its closure is; the queues on which it then parses the
  data and calls its handler are one step.
- DataStreamRequest's validators.
- Real locks, threads, queues and clocks, URLSession, event monitors, notifications and error descriptions.
- The application's own view controllers, views, Firebase and Core Data code; HTTPHeaders, RetryPolicy, MultipartFormData, the
  RxSwift platform shims and BoringSSL's error table.
