# Protocols and codecs of Poketrader, proved

Dafny models of the parts of the Poketrader repository in which something can go wrong quietly:

- **nanopb 0.3.9.6**, the vendored Protocol Buffers codec. `Wire` is the arithmetic of varints, zigzag and fixed-width
  words, `Varints` what the decoders make of any bytes. `Message` is the descriptor and the struct it describes,
  `Encoding` and `Decoding` say what `pb_encode` and `pb_decode` do, and `Merging` says what decoding over an existing
  struct should mean. `WireFormat` is the wire form without the encoder, `Refusals` what the encoder refuses,
  `FieldValues` what the decoder accepts, and `Untouched` what it leaves of the defaults. `RoundTrip`, `Theorems` and
  `Robustness` relate encoder and decoder, and `Reencoding` says when encoding is stable. `FieldIterator`,
  `RequiredFields`, `StreamEncoder` and `StreamDecoder` are the imperative code: the cyclic iterator, the bitset, and the
  two streams, each method proved against the specification. `StreamRoundTrip` joins them.
- **Alamofire's AuthenticationInterceptor**: completions that wait while a credential is refreshed.
  `AuthenticationInterceptor` is the protocol and where completions are, `AuthenticationOutcomes` what they are told,
  why, and with which credential, `AuthenticationRate` how often refreshes start, and `AuthenticationKinds` that adapting
  and retrying are never mixed up.
- **Alamofire's MultipartFormData**: `MultipartFormData` is the format with its parser, `MultipartStreams` the encoder
  that reads from streams and writes to memory or to a stream.
- **Alamofire's Request**: `RequestChain` is the state table and the chain of response serializers,
  `StreamCompletion` the counter that holds stream completions back, and `StreamChain` both together.
- **ImageGif**: the timing of animated GIFs.

Protocols are state machines whose steps are single locked sections, single calls of a completion or single queue
items; a run is any sequence of enabled steps. The classes beside them take the same steps on mutable fields and keep
the invariant that the theorems about runs rest on. Fields marked `ghost` there are what the original keeps outside the
object: closures on dispatch queues, calls that have not come back, and the history.

## Assumptions

- nanopb is built with 64-bit integers, packed arrays and static allocation. `PB_SIZE_MAX` may be any of its three
  values. Descriptors are as the generator emits them (`Message.FieldsOk`): tags distinct, nonzero and below 2^29,
  proto3 singular fields without a nonzero default, a string buffer of at least one byte.
- A struct conforms when its integers fit their variables, its arrays their storage and its strings are terminated
  inside their buffers (`Message.MsgOk`). Encoded lengths are below 2^32, because the decoder reads them with the
  32-bit varint (`RoundTrip.SmallMsg`).
- The bit position of the 32-bit varint decoder is an 8-bit counter that may wrap; the model wraps it too, and the
  refinement claim is about strings of at most ten bytes.
- The authenticator calls back at most once for each refresh, and the clock does not run backwards.
- Each response serializer reports at most once for each time it was started, and there is no retry.
- A stream reports an error only if it can fail (`fails`), and hands out or takes at least one byte at a time while it
  has bytes or room. An output stream that regains space (`refills`) does so only when it is asked for space.
- Swift integers have 64 bits, and an operation that traps gives no result (`None`).
- Header fields and the boundary are byte strings already in UTF-8.

## Where code and documentation part

- The decoder merges a repeated occurrence of a submessage into the earlier one, but a submessage inside a oneof is reset
  first (`pb_decode.c:466-475`), so it is replaced (`Theorems.MergeLawOneof`).
- A field is decoded without looking at the wire type of its record, except to tell a packed array from a single entry
  (`pb_decode.c:414-480`): exactly packable arrays depend on it (`Robustness.WireTypeIgnoredIff`), so a mismatched record
  of any other field is accepted (`Robustness.MismatchAccepted`), while a program that does not know the field skips it
  by its wire type.
- The encoder accepts a string that fills its buffer without a terminator, the decoder needs one byte more
  (`Theorems.StringReadBackIffTerminated`).
- Tag 0 matches the terminator entry of an empty descriptor (`pb_common.c:83-87`); the record is then read as a bool
  instead of being skipped (`Robustness.ZeroRecordDiffers`; `Robustness.ZeroRecordIgnoredIff` says when that does not
  matter).
- The 32-bit varint decoder skips bytes of zero bits beyond bit 32 without comparing them with the sign
  (`pb_decode.c:221-230`), so it also accepts values that are no sign extension (`Wire.Varint32AcceptsMore`;
  `Wire.Varint32AcceptsIff` says which).
- The boundary flags of a form are never cleared (`MultipartFormData.swift:327-328`, `363-364`): an instance that was
  encoded, extended and encoded again gives no form (`MultipartFormData.EncodesFormIff`).
- A full output stream ends the write loop without an error (`MultipartFormData.swift:485-501`), so a truncated form
  is reported as success, and a stream that regains space later gets the next piece after a gap
  (`MultipartStreams.StreamedIffRoom`).
- A response serializer registered between the last look and the clearing is dropped, and one registered later may run
  twice (`RequestChain.LateRegistration`), though not if nobody finishes the request again (`RequestChain.LateServed`).
- `adapt` decides under its lock and calls the completion after releasing it (`AuthenticationInterceptor.swift:251-290`);
  the credential applied was in force at the decision (`AuthenticationOutcomes.OutcomeJustified`) and may have been
  replaced since: `AuthenticationOutcomes.CredentialReplaced` is such a run, and `AuthenticationOutcomes.CurrentIff` and
  `AuthenticationOutcomes.RunCurrentIff` say exactly when it is still in force at the call.
- `retry` reads the credential before it takes the lock (`AuthenticationInterceptor.swift:306-326`), so a refresh may start
  with one that was replaced since: `AuthenticationOutcomes.StaleRefresh` is such a run, and
  `AuthenticationOutcomes.RefreshCredentialIff` says exactly which steps do.
- A stream completion is let go when all chunks so far are handled, but its batch runs later, and a chunk that comes in
  between is not waited for: `StreamCompletion.ReleasedBeforeHandled` is such a run, and
  `StreamCompletion.DataHarmlessIff` says exactly when a chunk does no harm. In the usual order there is no such chunk:
  the completion callback of a task finishes the request (`SessionDelegate.swift:208-216`, `Request.swift:464-505`), and
  it comes after the task's data. But `didReceive` asks for no state (`SessionDelegate.swift:227-238`,
  `Request.swift:1299-1311`), and `cancel` finishes a request whose task already reads as completed without waiting for
  callbacks on their way (`Request.swift:675-678`), so nothing in this code keeps a chunk away; whether the URL session
  delivers one then is foreign to it.
- `gcdForPair` traps on the pair -1 and `Int.min` as well as on a smaller value of zero (`ImageGif.swift:111`;
  `ImageGif.PairGcdIsGcd`), so `gcdForArray` traps on a zero among positive delays (`ImageGif.GcdForArray`).
- The encoder writes a proto3 submessage in which nothing is set but a oneof whose tag is no member's as an empty record
  (`pb_encode.c:240-336`), and a round trip then drops it; what the decoder produced never holds such a tag
  (`Reencoding.UnknownTagDropped`, `Reencoding.NormaliseKeepsEncodingIff`, `Reencoding.ReencodeStable`).

## Model

| member | source | states |
|---|---|---|
| Wire.VarintRoundTrip | Poketrader/Pods/nanopb/pb_encode.c:608-628 | every 64-bit value written as a varint is read back by the 64-bit decoder, which consumes exactly those bytes whatever follows |
| Wire.VarintLength | Poketrader/Pods/nanopb/pb_encode.c:608-628 | a 64-bit value takes one to ten bytes |
| Wire.VarintMinimal | Poketrader/Pods/nanopb/pb_decode.c:255-275 | any accepted varint has at most ten bytes, and the encoder's form of the decoded value is no longer than it |
| Wire.VarintBelow | Poketrader/Pods/nanopb/pb_decode.c:255-275 | whatever the bytes, a decoded varint fits 64 bits |
| Wire.GatherIsOr | Poketrader/Pods/nanopb/pb_decode.c:233-233 | adding the next seven bits to the word is what the bitwise or with the shifted and truncated bits gives |
| Wire.Varint32RoundTrip | Poketrader/Pods/nanopb/pb_decode.c:187-247 | a value below 2^32 is read back by the 32-bit decoder, consuming exactly its bytes |
| Wire.Varint32Refines64 | Poketrader/Pods/nanopb/pb_decode.c:187-247 | any string of at most ten bytes the 32-bit decoder accepts is accepted by the 64-bit one, with the same bytes left over and the same value modulo 2^32 |
| Wire.Varint32AcceptsIff | Poketrader/Pods/nanopb/pb_decode.c:205-242 | of the canonical encodings of all 64-bit values the 32-bit decoder accepts exactly those below 2^32, and those from 2^63 on that have bit 31 set and all zeros or all ones in each of the four seven-bit groups from bit 35; the result is the low word |
| Wire.Varint32Negative | Poketrader/Pods/nanopb/pb_decode.c:213-236 | the ten-byte encoding of every negative int32 is accepted and gives its low word |
| Wire.Varint32AcceptsMore | Poketrader/Pods/nanopb/pb_decode.c:221-230 | a ten-byte encoding that is no sign extension and is accepted nevertheless |
| Wire.ZigZagBijection | Poketrader/Pods/nanopb/pb_encode.c:630-639 | zigzag maps int64 one to one onto uint64 and is undone by the decoder's formula |
| Wire.LittleEndianRoundTrip | Poketrader/Pods/nanopb/pb_encode.c:641-666 | a fixed-width word is read back from the bytes written for it |
| Wire.FromLittleEndianRoundTrip | Poketrader/Pods/nanopb/pb_decode.c:1283-1315 | and any bytes are the ones written for the word they are read as |
| Wire.LittleEndianAt | Poketrader/Pods/nanopb/pb_encode.c:641-666 | the bytes of a word come least significant first |
| Varints.VarintOfGroups | Poketrader/Pods/nanopb/pb_decode.c:255-275 | a string of bytes is accepted as a varint exactly when one of its first ten bytes has no continuation bit; the value is its groups of seven bits, least significant first, modulo 2^64, and what follows is left |
| Varints.OpenVarint | Poketrader/Pods/nanopb/pb_decode.c:255-275 | without such a byte nothing is accepted |
| Varints.ZeroGroups | Poketrader/Pods/nanopb/pb_decode.c:210-236 | the 32-bit decoder passes over groups of zeros, its eight-bit bit position coming round |
| Varints.SkipVarintIff | Poketrader/Pods/nanopb/pb_decode.c:278-287 | skipping a varint stops right behind the first byte without a continuation bit, however late it comes |
| Message.DefaultsOk | Poketrader/Pods/nanopb/pb_decode.c:836-923 | the struct set to its defaults conforms to its descriptor at every depth |
| Message.DefaultsInitial | Poketrader/Pods/nanopb/pb_decode.c:836-906 | and every field in it, at every depth, holds its own default, arrays being empty and oneofs unset |
| RoundTrip.TagRoundTrip | Poketrader/Pods/nanopb/pb_decode.c:298-319 | every tag below 2^29 and wire type is read back |
| RoundTrip.PrefixedRoundTrip | Poketrader/Pods/nanopb/pb_decode.c:372-385 | a length-delimited block shorter than 2^32 bytes is cut out again exactly |
| RoundTrip.VarintFieldRoundTrip | Poketrader/Pods/nanopb/pb_decode.c:1329-1412 | signed, unsigned and zigzag fields of 1, 2, 4 and 8 bytes survive the clamping decoders |
| RoundTrip.ScalarRoundTrip | Poketrader/Pods/nanopb/pb_decode.c:1318-1501 | every scalar that fits its field is encoded, and decoded to itself (a string up to its terminator) |
| RoundTrip.PackedRoundTrip | Poketrader/Pods/nanopb/pb_decode.c:424-453 | a packed body is read back onto the end of the array, or rejected exactly when the array overflows |
| RoundTrip.UnpackedRoundTrip | Poketrader/Pods/nanopb/pb_decode.c:454-464 | a run of tagged entries is appended entry by entry, or rejected exactly when the array overflows |
| RoundTrip.ValRoundTrip | Poketrader/Pods/nanopb/pb_decode.c:1503-1525 | a value read over any earlier one is the merge of the two; a submessage reads only the bytes its length covers |
| RoundTrip.FieldRoundTrip | Poketrader/Pods/nanopb/pb_encode.c:341-426 | the encoding of one field, read over any struct, merges that field and touches no other slot |
| RoundTrip.LoopRoundTrip | Poketrader/Pods/nanopb/pb_encode.c:528-550 | an encoding followed by any bytes makes the field loop merge the struct, note all required fields and go on with those bytes |
| RoundTrip.EncFromOk | Poketrader/Pods/nanopb/pb_encode.c:528-550 | every conforming struct can be encoded |
| WireFormat.EncodeWritesRecords | Poketrader/Pods/nanopb/pb_encode.c:341-550 | pb_encode writes the records of the struct in descriptor order and nothing else: keys of 8 times the tag plus 0, 1, 2 or 5, signed integers of every size as 64-bit two's complement varints, zigzag, little-endian words, blocks, an array of numbers as one block, unset proto3 fields left out |
| WireFormat.EncodedRecords | Poketrader/Pods/nanopb/pb_encode.c:341-550 | a reader that knows no descriptor reads exactly those records from an encoded message |
| WireFormat.SignedOnTheWire | Poketrader/Pods/nanopb/pb_encode.c:776-798 | behind its key a signed field of 1, 2, 4 or 8 bytes is the varint of the sign-extended 64-bit word, ten bytes when negative |
| WireFormat.BoolOnTheWire | Poketrader/Pods/nanopb/pb_encode.c:769-774 | a bool is one byte, 0 or 1 |
| WireFormat.VarintAt | Poketrader/Pods/nanopb/pb_encode.c:608-628 | byte by byte: groups of seven bits, least significant first, with the top bit set on all but the last |
| Refusals.EncodeFailsIff | Poketrader/Pods/nanopb/pb_encode.c:147-160 | of structs that hold any counts and sizes the encoder refuses exactly those that would have it write an array longer than its storage or bytes longer than their buffer, at any depth |
| Theorems.DecodeIntoMerges | Poketrader/Pods/nanopb/pb_decode.c:925-1073 | decoding an encoding over any struct succeeds exactly when the merge exists, is that merge, and leaves nothing unread |
| Theorems.EncodeDecode | Poketrader/Pods/nanopb/pb_decode.c:1075-1087 | for every static descriptor and conforming struct, decoding what was encoded succeeds and gives the normalised struct |
| Theorems.ConcatenatedEncodingsMerge | Poketrader/Pods/nanopb/pb_decode.c:925-1021 | two encodings in a row decode to the merge of the two structs |
| Theorems.MergeLaw | Poketrader/Pods/nanopb/pb_decode.c:406-464 | in a merge the later scalar wins, an absent one changes nothing, arrays are appended, submessages merged |
| Theorems.MergeLawOneof | Poketrader/Pods/nanopb/pb_decode.c:466-475 | a later selection of a oneof replaces the earlier one as a whole, a submessage too |
| Theorems.DecodeSucceedsIffArraysFit | Poketrader/Pods/nanopb/pb_decode.c:447-461 | decoding an encoding over a conforming struct fails exactly when some array, at some depth, would outgrow its storage |
| Theorems.IsDefaultNorm | Poketrader/Pods/nanopb/pb_encode.c:240-336 | a proto3 field the encoder leaves out is at the default the decoder will put there |
| Theorems.OmittedIffDefault | Poketrader/Pods/nanopb/pb_encode.c:240-336 | a proto3 scalar is left out exactly when its value is the default; fixed-length bytes are written even when zero |
| Theorems.StringReadBackIffTerminated | Poketrader/Pods/nanopb/pb_decode.c:1468-1501 | every string in its buffer is encoded, and can be decoded exactly when its terminator is inside the buffer |
| Robustness.DecodeConforms | Poketrader/Pods/nanopb/pb_decode.c:1075-1087 | for any input, an accepted struct conforms: integers in range, arrays within their size, strings terminated, at every depth |
| Untouched.UnmentionedIsInitial | Poketrader/Pods/nanopb/pb_decode.c:836-923 | after any accepted input, a field at any depth of single submessages without a record in it has the default of its own descriptor entry, an array is empty, a oneof unset |
| Untouched.UnmentionedDefault | Poketrader/Pods/nanopb/pb_decode.c:864-891 | spelled out for the top level: required, proto3 and optional fields, arrays and oneofs |
| Untouched.EntryDecodedAlone | Poketrader/Pods/nanopb/pb_decode.c:454-475 | an entry of an array of submessages and a submessage in a oneof is its payload decoded on its own, so the same holds inside it |
| FieldValues.SignedAcceptedIff | Poketrader/Pods/nanopb/pb_decode.c:1329-1365 | a signed field accepts a varint with value i exactly when i fits the variable and has the low 32 bits read, or all 64 for a variable of that size |
| FieldValues.UnsignedAcceptedIff | Poketrader/Pods/nanopb/pb_decode.c:1366-1388 | an unsigned field accepts exactly the numbers that fit its variable |
| FieldValues.ZigZagAcceptedIff | Poketrader/Pods/nanopb/pb_decode.c:1390-1412 | a zigzag field accepts exactly the numbers whose value fits its variable |
| FieldValues.ShortNegative | Poketrader/Pods/nanopb/pb_decode.c:1338-1347 | a negative value may come as the five bytes of its 32-bit word, except in a variable of 64 bits |
| FieldValues.BoolAccepted | Poketrader/Pods/nanopb/pb_decode.c:1318-1327 | any nonzero 32-bit varint is true |
| FieldValues.FixedAccepted | Poketrader/Pods/nanopb/pb_decode.c:1414-1428 | four or eight bytes, least significant first |
| FieldValues.BytesAcceptedIff | Poketrader/Pods/nanopb/pb_decode.c:1431-1501 | bytes and strings are accepted exactly when they fit their storage, size header or terminator included |
| FieldValues.FixedBytesAcceptedIff | Poketrader/Pods/nanopb/pb_decode.c:1527-1548 | bytes of fixed length are accepted in that length alone, and an empty block stands for zeros |
| FieldValues.ZeroTerminates | Poketrader/Pods/nanopb/pb_decode.c:298-319 | a zero byte between records ends the message with success or failure as if nothing followed, and leaves what follows |
| FieldValues.SkipFieldExact | Poketrader/Pods/nanopb/pb_decode.c:321-331 | what is skipped for each wire type, and that all others are refused |
| Robustness.ReencodeAccepted | Poketrader/Pods/nanopb/pb_decode.c:1075-1087 | any accepted struct can be encoded again and decodes to its normalised self |
| Reencoding.NormaliseKeepsEncodingIff | Poketrader/Pods/nanopb/pb_encode.c:240-336 | a conforming struct and its normal form are encoded alike exactly when no encoded proto3 submessage is blank but for oneof tags that are no member's; otherwise the normal form is shorter |
| Reencoding.UnknownTagDropped | Poketrader/Pods/nanopb/pb_encode.c:240-336 | a conforming struct whose oneof is set to no member's tag and whose encoding shrinks in a round trip |
| Reencoding.ReencodeStable | Poketrader/Pods/nanopb/pb_decode.c:925-1087 | what any accepted struct is encoded to is, decoded and encoded once more, the same bytes |
| Robustness.LoopAppend | Poketrader/Pods/nanopb/pb_decode.c:943-1021 | the field loop is a fold: bytes after complete records are read from the state the records leave |
| Robustness.DecodeConcatenation | Poketrader/Pods/nanopb/pb_decode.c:925-1073 | if a, and then b over the result, decode, and a holds no zero terminator, then a followed by b decodes to the same struct |
| Robustness.SubmessagesMerge | Poketrader/Pods/nanopb/pb_decode.c:1503-1525 | for arbitrary payloads: two records of one submessage field do what one record with both payloads in a row does |
| Robustness.WireTypeIgnoredIff | Poketrader/Pods/nanopb/pb_decode.c:406-480 | a field is decoded alike for every wire type exactly when it is not a packable array |
| Robustness.RecordWireTypeIgnored | Poketrader/Pods/nanopb/pb_decode.c:943-1021 | in a message, too, the wire type of a record of such a field may be replaced by any other |
| Robustness.MismatchAccepted | Poketrader/Pods/nanopb/pb_decode.c:414-422 | a two-byte message with a mismatched record that a program knowing the field accepts and one not knowing it rejects |
| Robustness.ZeroRecordIgnoredIff | Poketrader/Pods/nanopb/pb_common.c:78-95 | over an empty descriptor a record of tag 0 is ignored, whatever follows, exactly when complete records remain behind the bool it is read as |
| Robustness.ZeroRecordDiffers | Poketrader/Pods/nanopb/pb_common.c:78-95 | a record of tag 0 that other descriptors ignore and the empty one rejects |
| Robustness.DecodeOrderIndependent | Poketrader/Pods/nanopb/pb_decode.c:943-1021 | exchanging two neighbouring accepted records of fields that share no storage changes neither verdict nor struct |
| Robustness.DecodeIgnoresUnknown | Poketrader/Pods/nanopb/pb_decode.c:957-986 | a complete record of an unknown tag between records changes neither verdict nor struct |
| Robustness.SkipEncoded | Poketrader/Pods/nanopb/pb_decode.c:321-331 | skipping by wire type passes over exactly what the encoder writes for a value of any field |
| Robustness.EncodedFieldIsUnknown | Poketrader/Pods/nanopb/pb_decode.c:957-986 | so what is encoded for a field the descriptor lacks is a record the decoder ignores |
| Robustness.SeenIsRequiredIn | Poketrader/Pods/nanopb/pb_decode.c:1012-1017 | the required fields noted are exactly those whose tags occur in the input |
| Robustness.RequiredFieldsExact | Poketrader/Pods/nanopb/pb_decode.c:1030-1070 | once the loop ends, decoding succeeds exactly when each of the first 64 required fields occurred |
| FieldIterator.FieldIter.constructor | Poketrader/Pods/nanopb/pb_common.c:8-18 | starts on the first entry with count and addresses those of position 0 |
| FieldIterator.FieldIter.Restart | Poketrader/Pods/nanopb/pb_common.c:8-18 | the same for an iterator that wraps |
| FieldIterator.FieldIter.Next | Poketrader/Pods/nanopb/pb_common.c:20-76 | one step round the cycle; required count and both addresses remain functions of the position alone, oneof members staying at one address |
| FieldIterator.FieldIter.Find | Poketrader/Pods/nanopb/pb_common.c:78-95 | terminates within one cycle, finds the nearest entry with the tag exactly when there is one, and otherwise leaves the whole iterator as it was |
| FieldIterator.SameSlotIffSameAddress | Poketrader/Pods/nanopb/pb_common.c:42-73 | two entries have the same address exactly when they are members of one oneof |
| FieldIterator.StorageDisjoint | Poketrader/Pods/nanopb/pb_common.c:41-73 | the storage of a field, all entries of an array included, ends before that of any later field outside its oneof begins |
| FieldIterator.LayoutFound | Poketrader/Pods/nanopb/pb_common.c:8-76 | for a descriptor that gives the distances of a struct the iterator stands on the true addresses of data and counts |
| RequiredFields.MarkSeen | Poketrader/Pods/nanopb/pb_decode.c:1012-1017 | setting one bit adds exactly the current required field to what the words hold |
| RequiredFields.AllRequiredIffBits | Poketrader/Pods/nanopb/pb_decode.c:1030-1070 | all tracked required fields were seen exactly when the low bits are set, and no higher bit ever is |
| RequiredFields.CheckRequired | Poketrader/Pods/nanopb/pb_decode.c:1030-1070 | from any iterator position the count-and-compare code accepts exactly when all tracked required fields were seen |
| RequiredFields.WordsFull | Poketrader/Pods/nanopb/pb_decode.c:1051-1069 | comparing whole words and the remaining bits decides whether bits 0 to count - 1 are all set |
| StreamEncoder.SizeAndEncode | Poketrader/Pods/nanopb/pb_encode.c:528-576 | the same struct is encoded on a counting stream and into a buffer: writing succeeds exactly when counting did and the count fits the limit, and writes that many bytes; otherwise a prefix within the limit; bytes behind it keep their value |
| StreamEncoder.SizingAgreesWithWriting | Poketrader/Pods/nanopb/pb_encode.c:103-124 | the reason: any two runs, one counting and one writing, of an operation that emits the same bytes are so related |
| StreamEncoder.ConformingHeld | Poketrader/Pods/nanopb/pb_encode.c:528-550 | a conforming struct meets every requirement of the encoder |
| StreamRoundTrip.EncodeThenDecode | Poketrader/Pods/nanopb/pb_decode.c:1075-1087 | size, encode and decode in a row succeed and leave the normalised struct in place |
| StreamEncoder.CheckDefault | Poketrader/Pods/nanopb/pb_encode.c:240-336 | decides whether a field holds its zero value |
| StreamEncoder.CheckDefaultMessage | Poketrader/Pods/nanopb/pb_encode.c:289-308 | its loop over a submessage decides whether all fields do |
| StreamEncoder.FillVarint | Poketrader/Pods/nanopb/pb_encode.c:617-625 | the loop leaves the varint of the value in the buffer |
| StreamEncoder.OStream.FromBuffer | Poketrader/Pods/nanopb/pb_encode.c:86-101 | a stream over the start of a buffer with the given limit |
| StreamEncoder.OStream.BufWrite | Poketrader/Pods/nanopb/pb_encode.c:74-84 | copies the bytes to the write pointer and changes nothing else |
| StreamEncoder.OStream.Write | Poketrader/Pods/nanopb/pb_encode.c:103-124 | writes all bytes, or none when the limit would be passed; a counting stream counts |
| StreamEncoder.OStream.EncodeVarint | Poketrader/Pods/nanopb/pb_encode.c:608-628 | emits the varint |
| StreamEncoder.OStream.EncodeSVarint | Poketrader/Pods/nanopb/pb_encode.c:630-639 | emits the zigzag varint of any int64 |
| StreamEncoder.OStream.EncodeFixed32 | Poketrader/Pods/nanopb/pb_encode.c:641-650 | emits four bytes, low byte first |
| StreamEncoder.OStream.EncodeFixed64 | Poketrader/Pods/nanopb/pb_encode.c:653-666 | emits eight bytes, low byte first |
| StreamEncoder.OStream.EncodeString | Poketrader/Pods/nanopb/pb_encode.c:709-715 | emits the length and the bytes |
| StreamEncoder.OStream.EncodeInteger | Poketrader/Pods/nanopb/pb_encode.c:776-833 | emits what the encoder of signed, unsigned or zigzag integers should, a signed one of any size as the sign-extended 64-bit word, or fails for the sizes it does not know |
| StreamEncoder.OStream.EncodeNumber | Poketrader/Pods/nanopb/pb_encode.c:769-850 | emits what the field encoder of a number should, or fails for the sizes it does not know |
| StreamEncoder.OStream.EncodeBytes | Poketrader/Pods/nanopb/pb_encode.c:852-912 | the same for bytes, strings and fixed-length bytes |
| StreamEncoder.OStream.EncodeSubmessage | Poketrader/Pods/nanopb/pb_encode.c:717-765 | size, length and content agree: what goes out is the prefixed encoding of the inner struct |
| StreamEncoder.OStream.EncodeWithin | Poketrader/Pods/nanopb/pb_encode.c:743-764 | the second pass through the substream writes exactly the size counted, so the "submsg size changed" branch is dead |
| StreamEncoder.OStream.EncodePackedArray | Poketrader/Pods/nanopb/pb_encode.c:162-205 | the length in front of a packed body is the length of the body |
| StreamEncoder.OStream.PackedSize | Poketrader/Pods/nanopb/pb_encode.c:169-189 | the size computed for fixed widths, or counted, is the size of the body |
| StreamEncoder.OStream.EncodeTaggedArray | Poketrader/Pods/nanopb/pb_encode.c:206-233 | every entry goes out behind its tag, in order |
| StreamEncoder.OStream.EncodeArray | Poketrader/Pods/nanopb/pb_encode.c:147-236 | nothing for an empty array, an error for one beyond its storage, and otherwise the packed or tagged form |
| StreamEncoder.OStream.EncodeField | Poketrader/Pods/nanopb/pb_encode.c:341-426 | a field is emitted, left out or refused as its kind and its flags say |
| StreamEncoder.OStream.Encode | Poketrader/Pods/nanopb/pb_encode.c:528-550 | a writing run emits a prefix of the encoding within the limit and succeeds exactly when the encoding exists and fits; a counting run counts it |
| StreamEncoder.GetEncodedSize | Poketrader/Pods/nanopb/pb_encode.c:567-576 | the size is the length of the encoding |
| StreamDecoder.SetToDefaults | Poketrader/Pods/nanopb/pb_decode.c:908-923 | the loop over the fields leaves the default struct |
| StreamDecoder.SetFieldToDefault | Poketrader/Pods/nanopb/pb_decode.c:836-906 | resets one field, the slot it shares with the members of its oneof included, and no other |
| StreamDecoder.IStream.Read | Poketrader/Pods/nanopb/pb_decode.c:102-137 | reads exactly the bytes asked for, or none when the window is too small |
| StreamDecoder.IStream.ReadByte | Poketrader/Pods/nanopb/pb_decode.c:141-157 | reads one byte inside the window |
| StreamDecoder.IStream.DecodeVarint | Poketrader/Pods/nanopb/pb_decode.c:255-275 | the loop reads what the specification of a varint says and stays inside the window |
| StreamDecoder.IStream.DecodeVarint32 | Poketrader/Pods/nanopb/pb_decode.c:187-247 | the same for the 32-bit loop with its sign-extension bytes |
| StreamDecoder.IStream.SkipVarintBytes | Poketrader/Pods/nanopb/pb_decode.c:278-287 | passes over one varint |
| StreamDecoder.IStream.DecodeTag | Poketrader/Pods/nanopb/pb_decode.c:298-319 | tells a tag, a zero terminator and an error apart |
| StreamDecoder.IStream.MakeSubstream | Poketrader/Pods/nanopb/pb_decode.c:372-385 | the substream is exactly the declared block inside the parent's window, which gives those bytes up |
| StreamDecoder.IStream.CloseSubstream | Poketrader/Pods/nanopb/pb_decode.c:387-399 | however little the reader consumed, the parent stands behind the whole block |
| StreamDecoder.IStream.SkipFieldBytes | Poketrader/Pods/nanopb/pb_decode.c:321-331 | passes over one value of the wire type |
| StreamDecoder.IStream.DecodeSVarint | Poketrader/Pods/nanopb/pb_decode.c:1269-1281 | reads a zigzag varint |
| StreamDecoder.IStream.DecodeInteger | Poketrader/Pods/nanopb/pb_decode.c:1329-1412 | stores the value or rejects it when it does not fit the variable |
| StreamDecoder.IStream.DecodeFixed | Poketrader/Pods/nanopb/pb_decode.c:1283-1315 | reads a little-endian word |
| StreamDecoder.IStream.DecodeBytes | Poketrader/Pods/nanopb/pb_decode.c:1431-1501 | reads a block that fits the storage, terminator included for strings |
| StreamDecoder.IStream.DecodeVal | Poketrader/Pods/nanopb/pb_decode.c:1503-1525 | decoding a value, nested messages included, never reads past the enclosing block, and on success leaves its end where it was |
| StreamDecoder.IStream.DecodePackedArray | Poketrader/Pods/nanopb/pb_decode.c:424-453 | reads entries until the block is used up, or fails when the array is full before that |
| StreamDecoder.IStream.DecodeStaticField | Poketrader/Pods/nanopb/pb_decode.c:406-480 | stores the value as the field's kind asks |
| StreamDecoder.IStream.DecodeFound | Poketrader/Pods/nanopb/pb_decode.c:1012-1020 | the record of the field found is stored in its slot alone, and its bit set if it is required |
| StreamDecoder.IStream.DecodeFields | Poketrader/Pods/nanopb/pb_decode.c:939-1021 | the loop, whatever the iterator position, treats every record as the specification does and keeps bits and fields seen in step |
| StreamDecoder.IStream.DecodeNoinit | Poketrader/Pods/nanopb/pb_decode.c:925-1073 | the verdict, the struct and the bytes left are those of the specification, and the window's end does not move |
| StreamDecoder.IStream.Decode | Poketrader/Pods/nanopb/pb_decode.c:1075-1087 | the same, starting from the defaults |
| AuthenticationInterceptor.StepKeeps | Poketrader/Pods/Alamofire/Source/AuthenticationInterceptor.swift:251-403 | every locked section, queued item, callback and credential change keeps the invariant |
| AuthenticationInterceptor.Safety | Poketrader/Pods/Alamofire/Source/AuthenticationInterceptor.swift:251-403 | in every reachable state the waiting lists are empty unless a refresh is under way, exactly one refresh is outstanding while isRefreshing, and every completion handed in is in some place |
| AuthenticationInterceptor.ExactlyOnePlace | Poketrader/Pods/Alamofire/Source/AuthenticationInterceptor.swift:251-403 | a completion is called, decided, waiting, queued or between check and lock: in one place, and so called at most once |
| AuthenticationInterceptor.NothingStranded | Poketrader/Pods/Alamofire/Source/AuthenticationInterceptor.swift:371-403 | when nothing is queued, outstanding, decided or between check and lock, every completion has been called |
| AuthenticationInterceptor.StartRefreshKeeps | Poketrader/Pods/Alamofire/Source/AuthenticationInterceptor.swift:331-354 | a refresh becomes the one outstanding, or is refused and everything that waits is failed |
| AuthenticationInterceptor.StartRefreshRate | Poketrader/Pods/Alamofire/Source/AuthenticationInterceptor.swift:331-369 | a refresh that starts records the timestamp read after the check and is queued, one that is refused records none, and the bound on the recorded list is kept |
| AuthenticationInterceptor.EventKeeps | Poketrader/Pods/Alamofire/Source/AuthenticationInterceptor.swift:251-403 | every event keeps the invariant and the rate bound together |
| AuthenticationInterceptor.Interceptor.constructor | Poketrader/Pods/Alamofire/Source/AuthenticationInterceptor.swift:241-247 | starts with the given credential, nothing waiting and the invariant |
| AuthenticationInterceptor.Interceptor.SetCredentialTo | Poketrader/Pods/Alamofire/Source/AuthenticationInterceptor.swift:219-222 | replaces the credential at any time and nothing else |
| AuthenticationInterceptor.Interceptor.IsRefreshExcessive | Poketrader/Pods/Alamofire/Source/AuthenticationInterceptor.swift:356-369 | the fold counts the timestamps at or after the start of the window |
| AuthenticationInterceptor.Interceptor.AdaptLockedSection | Poketrader/Pods/Alamofire/Source/AuthenticationInterceptor.swift:252-274 | under the lock: defer, decide to fail, start a refresh or decide to apply |
| AuthenticationInterceptor.Interceptor.AdaptRequest | Poketrader/Pods/Alamofire/Source/AuthenticationInterceptor.swift:251-290 | the object takes the event of adapt, submission and clock included, and keeps the invariant |
| AuthenticationInterceptor.Interceptor.RetryGuards | Poketrader/Pods/Alamofire/Source/AuthenticationInterceptor.swift:294-318 | the checks before the lock, in their order |
| AuthenticationInterceptor.Interceptor.RetryUnlocked | Poketrader/Pods/Alamofire/Source/AuthenticationInterceptor.swift:294-318 | the object takes the event of these checks and keeps the invariant |
| AuthenticationInterceptor.Interceptor.RetryLockedSection | Poketrader/Pods/Alamofire/Source/AuthenticationInterceptor.swift:320-326 | the section under the lock |
| AuthenticationInterceptor.Interceptor.RetryWithLock | Poketrader/Pods/Alamofire/Source/AuthenticationInterceptor.swift:320-326 | the object takes the event of that section: the retry leaves the place between check and lock |
| AuthenticationInterceptor.Interceptor.CallCompletion | Poketrader/Pods/Alamofire/Source/AuthenticationInterceptor.swift:277-289 | a decided completion is called with what was decided |
| AuthenticationInterceptor.Interceptor.Refresh | Poketrader/Pods/Alamofire/Source/AuthenticationInterceptor.swift:331-354 | starts a refresh and records its timestamp, or fails what waits |
| AuthenticationInterceptor.Interceptor.HandleRefreshSuccess | Poketrader/Pods/Alamofire/Source/AuthenticationInterceptor.swift:371-387 | stores the credential and hands what waits to one queued job |
| AuthenticationInterceptor.Interceptor.HandleRefreshFailure | Poketrader/Pods/Alamofire/Source/AuthenticationInterceptor.swift:389-403 | hands what waits to one failing job |
| AuthenticationInterceptor.Interceptor.RefreshDidSucceed | Poketrader/Pods/Alamofire/Source/AuthenticationInterceptor.swift:343-348 | the object takes the event of the callback: the outstanding call is answered |
| AuthenticationInterceptor.Interceptor.RefreshDidFail | Poketrader/Pods/Alamofire/Source/AuthenticationInterceptor.swift:343-350 | the same for a failing callback |
| AuthenticationInterceptor.Interceptor.RunQueueItem | Poketrader/Pods/Alamofire/Source/AuthenticationInterceptor.swift:383-402 | takes one completion at a time, adapts before retries, in order |
| AuthenticationInterceptor.Interceptor.RunQueueOnce | Poketrader/Pods/Alamofire/Source/AuthenticationInterceptor.swift:383-402 | the object takes the event of the queue and keeps the invariant |
| AuthenticationOutcomes.OutcomeJustified | Poketrader/Pods/Alamofire/Source/AuthenticationInterceptor.swift:251-403 | a step decides that a request is told something exactly when the step is one of that request and the outcome true in it: adapted or failed for want of a credential by its own section of adapt, with the credential in force or none; retried or failed by the queue when it is the next of its job; or told by its own checks of retry |
| AuthenticationOutcomes.RunJustified | Poketrader/Pods/Alamofire/Source/AuthenticationInterceptor.swift:251-403 | over every run, whatever a request was told was decided, as above, by a step of that run; and what the queue told it was caused by an earlier step: the authenticator answered so while the request waited, or the request itself asked for a refresh that was refused as excessive |
| AuthenticationOutcomes.JobsHaveOrigins | Poketrader/Pods/Alamofire/Source/AuthenticationInterceptor.swift:331-403 | over every run, a job in the queue is what is left of one that some step put there: a success job by a callback with a credential, a failing job by a callback with that error or by a refused refresh, each with exactly the requests that waited then |
| AuthenticationOutcomes.CredentialReplaced | Poketrader/Pods/Alamofire/Source/AuthenticationInterceptor.swift:251-290 | a run in which the credential is replaced between the decision and the call, so that a request is told of the old one |
| AuthenticationOutcomes.CurrentIff | Poketrader/Pods/Alamofire/Source/AuthenticationInterceptor.swift:251-290 | exactly when no decision on its way is of a replaced credential, every continuation in which the credential is not replaced calls each adapted completion with the credential in force |
| AuthenticationOutcomes.RunCurrentIff | Poketrader/Pods/Alamofire/Source/AuthenticationInterceptor.swift:219-222 | over every run, decisions on their way are of the credential in force all along exactly when every change of the credential comes without one of another credential on its way, and then every adapted completion is called with the credential in force |
| AuthenticationOutcomes.RefreshCredentialIff | Poketrader/Pods/Alamofire/Source/AuthenticationInterceptor.swift:306-354 | a step that starts a refresh starts it with the credential in force, unless it is a retry whose credential, read before the lock, was replaced meanwhile |
| AuthenticationOutcomes.StaleRefresh | Poketrader/Pods/Alamofire/Source/AuthenticationInterceptor.swift:306-326 | a run in which a refresh starts with a replaced credential |
| AuthenticationOutcomes.CredentialInForce | Poketrader/Pods/Alamofire/Source/AuthenticationInterceptor.swift:219-222 | over every run the credential in force is the last one set, or brought by a refresh |
| AuthenticationOutcomes.StepInOrder | Poketrader/Pods/Alamofire/Source/AuthenticationInterceptor.swift:371-403 | requests that wait keep their places: others come behind them, or all go into one job in that order |
| AuthenticationOutcomes.StepBusy | Poketrader/Pods/Alamofire/Source/AuthenticationInterceptor.swift:383-402 | a completion the queue is to call holds the queue up until it was called, and no other does |
| AuthenticationRate.TimestampsAreStarts | Poketrader/Pods/Alamofire/Source/AuthenticationInterceptor.swift:331-354 | over every run the timestamps kept are the clock readings of the steps that start a refresh, each once |
| AuthenticationRate.RefreshRateBounded | Poketrader/Pods/Alamofire/Source/AuthenticationInterceptor.swift:356-369 | over every run no closed interval as long as the window holds more steps that start a refresh than allowed, counted by the steps and their clock readings |
| AuthenticationRate.RefusedIff | Poketrader/Pods/Alamofire/Source/AuthenticationInterceptor.swift:331-369 | over every run a step that asks for a refresh is refused, failing all that waits, exactly when at least the allowed number of steps have started one since the beginning of the window; otherwise it starts one |
| AuthenticationRate.ReadingsInOrder | Poketrader/Pods/Alamofire/Source/AuthenticationInterceptor.swift:331-369 | the clock readings of a run do not go back |
| AuthenticationKinds.KindsKept | Poketrader/Pods/Alamofire/Source/AuthenticationInterceptor.swift:251-403 | over every run the completions handed to adapt are those told of adapting or still in some place, each as often as handed in, and the same for retry |
| AuthenticationKinds.AllToldByKind | Poketrader/Pods/Alamofire/Source/AuthenticationInterceptor.swift:371-403 | when all is quiet every completion has been told what is said to its kind |
| MultipartFormData.NoStraddle | Poketrader/Pods/Alamofire/Source/MultipartFormData.swift:64-77 | in text followed by a delimiter the first match is the delimiter itself: none straddles the two (section 5.1.1 of RFC 2046) |
| MultipartFormData.DelimiterUnbordered | Poketrader/Pods/Alamofire/Source/MultipartFormData.swift:64-77 | a boundary without CR makes a delimiter that can not overlap itself |
| MultipartFormData.EncodeIsProduction | Poketrader/Pods/Alamofire/Source/MultipartFormData.swift:320-390 | initial, encapsulated and final boundaries together form the grammar of a multipart body |
| MultipartFormData.EncodeText | Poketrader/Pods/Alamofire/Source/MultipartFormData.swift:64-79 | the whole form byte by byte: two hyphens and the boundary on a line, header fields as name, colon, space, value and line break, a blank line and the body for each part, delimiter lines between and the closing one behind |
| MultipartFormData.ParseEncodedHeaders | Poketrader/Pods/Alamofire/Source/MultipartFormData.swift:392-398 | header lines are read back up to the blank line |
| MultipartFormData.ParseProduction | Poketrader/Pods/Alamofire/Source/MultipartFormData.swift:373-390 | the grammar-following parser reads back every part |
| MultipartFormData.ParsedParts | Poketrader/Pods/Alamofire/Source/MultipartFormData.swift:373-390 | and whatever it reads is the production of parts the format can carry |
| MultipartFormData.ParseInvertsEncode | Poketrader/Pods/Alamofire/Source/MultipartFormData.swift:320-336 | parsing gives exactly these parts if and only if the text is their encoding and they can be carried |
| MultipartFormData.RoundTripIff | Poketrader/Pods/Alamofire/Source/MultipartFormData.swift:320-336 | an encoding is read back exactly when names hold no colon or CRLF, values no CRLF and bodies no delimiter |
| MultipartFormData.EncodeInjective | Poketrader/Pods/Alamofire/Source/MultipartFormData.swift:320-336 | two lists of such parts with the same encoding are equal |
| MultipartFormData.EncodingShowsFlags | Poketrader/Pods/Alamofire/Source/MultipartFormData.swift:373-390 | the output determines the boundary flags of every part |
| MultipartFormData.EncodesFormIff | Poketrader/Pods/Alamofire/Source/MultipartFormData.swift:320-336 | an instance with any flags encodes a form exactly when no initial flag is left on a later part and no final flag on an earlier one |
| MultipartStreams.StreamedIffRoom | Poketrader/Pods/Alamofire/Source/MultipartFormData.swift:485-501 | without an error the output is complete exactly when nothing was given up, which holds if there was room, and only then unless the stream regains space; a full stream is no error |
| MultipartStreams.WroteStep | Poketrader/Pods/Alamofire/Source/MultipartFormData.swift:427-432 | pieces written one after another compose: what was written, what was given up and what is a prefix add up |
| MultipartStreams.InputStream.Read | Poketrader/Pods/Alamofire/Source/MultipartFormData.swift:405-410 | any number of the next bytes, at least one while some are left; an error only from a stream that can fail |
| MultipartStreams.OutputStream.HasSpaceAvailable | Poketrader/Pods/Alamofire/Source/MultipartFormData.swift:488-488 | tells whether there is room, which only a stream that refills regains |
| MultipartStreams.OutputStream.Write | Poketrader/Pods/Alamofire/Source/MultipartFormData.swift:489-493 | takes at least one byte of what is offered; an error only from a stream that can fail |
| MultipartStreams.OutputStream.WriteAll | Poketrader/Pods/Alamofire/Source/MultipartFormData.swift:485-501 | the write loop terminates and has written everything or met a full stream, for every pattern of partial writes; it fails only on a stream that can fail |
| MultipartStreams.BodyPart.EncodeBodyStream | Poketrader/Pods/Alamofire/Source/MultipartFormData.swift:400-423 | gathers the whole stream for every pattern of short reads; it fails only if the stream can fail |
| MultipartStreams.BodyPart.Encode | Poketrader/Pods/Alamofire/Source/MultipartFormData.swift:373-390 | boundary, headers, body and final boundary of one part; it fails only if its stream can fail |
| MultipartStreams.BodyPart.WriteBodyStream | Poketrader/Pods/Alamofire/Source/MultipartFormData.swift:445-468 | copies the stream chunk by chunk; an error comes from a stream that can fail |
| MultipartStreams.BodyPart.Write | Poketrader/Pods/Alamofire/Source/MultipartFormData.swift:427-432 | writes what the in-memory form gives; an error comes from a stream that can fail |
| MultipartStreams.BodyPart.WriteInitialBoundaryData | Poketrader/Pods/Alamofire/Source/MultipartFormData.swift:434-437 | writes the opening boundary; it fails only on a stream that can fail |
| MultipartStreams.BodyPart.WriteFinalBoundaryData | Poketrader/Pods/Alamofire/Source/MultipartFormData.swift:470-474 | writes the closing boundary of a last part only |
| MultipartStreams.MultipartForm.Append | Poketrader/Pods/Alamofire/Source/MultipartFormData.swift:305-308 | adds one unflagged part at the end |
| MultipartStreams.MultipartForm.MarkBoundaries | Poketrader/Pods/Alamofire/Source/MultipartFormData.swift:327-328 | sets the first part's initial and the last part's final flag and changes nothing else |
| MultipartStreams.MultipartForm.Encode | Poketrader/Pods/Alamofire/Source/MultipartFormData.swift:320-336 | with no recorded error and sound input streams it succeeds, and the data is the encoding of the parts with their flags |
| MultipartStreams.MultipartForm.WriteEncodedData | Poketrader/Pods/Alamofire/Source/MultipartFormData.swift:345-369 | checks in order; then with sound streams it succeeds, and with room for all of it the stream has gained exactly that same encoding |
| RequestChain.StepLegal | Poketrader/Pods/Alamofire/Source/Request.swift:50-63 | a step keeps the state, follows the transition table, or is a registration that reopens a finished request |
| RequestChain.CancelledAbsorbs | Poketrader/Pods/Alamofire/Source/Request.swift:50-63 | over every run cancelled is never left and initialized never entered again |
| RequestChain.RunState | Poketrader/Pods/Alamofire/Source/Request.swift:50-63 | the state after any run is what its events, one by one, make of it: resume and suspend alternate, a cancellation lasts, the clearing finishes, a registration reopens |
| RequestChain.CancelledIff | Poketrader/Pods/Alamofire/Source/Request.swift:667-687 | a request is cancelled exactly when some cancel came while it was not finished |
| RequestChain.StateLasts | Poketrader/Pods/Alamofire/Source/Request.swift:50-63 | a state lasts until an event that changes it |
| RequestChain.StepKeeps | Poketrader/Pods/Alamofire/Source/Request.swift:511-608 | every step of the chain keeps its invariant when registrations are timely |
| RequestChain.Safety | Poketrader/Pods/Alamofire/Source/Request.swift:511-608 | in every run with timely registrations one call of the chain is under way while the request is finishing, and none otherwise |
| RequestChain.RunInOrder | Poketrader/Pods/Alamofire/Source/Request.swift:552-564 | serializers run at most once, in order of registration, each after the one before it reported |
| RequestChain.CallInOrder | Poketrader/Pods/Alamofire/Source/Request.swift:567-599 | completions are called at most once, in order, and only after the last serializer reported |
| RequestChain.NothingDropped | Poketrader/Pods/Alamofire/Source/Request.swift:567-608 | while finishing some step is due; and at rest every completion was called, if the request was ever finished, or cancelled without a live task |
| RequestChain.EndedIsEnding | Poketrader/Pods/Alamofire/Source/Request.swift:667-687 | from a finish, or from a cancel that is accepted and finds no live task, on, a finish is scheduled or under way or the lists have been worked off |
| RequestChain.LateRegistration | Poketrader/Pods/Alamofire/Source/Request.swift:531-547 | a serializer registered after the last look or after the clearing can be dropped or run twice: the run is given |
| RequestChain.TimelyIffSafe | Poketrader/Pods/Alamofire/Source/Request.swift:531-547 | a registration is safe in every continuation exactly when no call is between its two sections and the lists were not cleared yet |
| RequestChain.LateServed | Poketrader/Pods/Alamofire/Source/Request.swift:531-547 | a serializer registered when all was over runs once and has its completion called once, as long as nobody finishes the request again |
| RequestChain.RegistrationResumes | Poketrader/Pods/Alamofire/Source/Request.swift:539-545 | a registration leaves the request resumed, or cancelled, or schedules the resume |
| RequestChain.Request.constructor | Poketrader/Pods/Alamofire/Source/Request.swift:85-126 | a fresh request |
| RequestChain.Request.Finish | Poketrader/Pods/Alamofire/Source/Request.swift:511-524 | starts the chain unless it is under way, and keeps the invariant |
| RequestChain.Request.AppendResponseSerializer | Poketrader/Pods/Alamofire/Source/Request.swift:531-547 | the locked section of a registration, with the processing and the resume it schedules; a timely one keeps the invariant |
| RequestChain.Request.NextResponseSerializer | Poketrader/Pods/Alamofire/Source/Request.swift:552-564 | the serializer after those that have reported, if there is one |
| RequestChain.Request.ProcessNextResponseSerializer | Poketrader/Pods/Alamofire/Source/Request.swift:567-598 | up to the second locked section |
| RequestChain.Request.TakeCompletions | Poketrader/Pods/Alamofire/Source/Request.swift:569-590 | the second locked section |
| RequestChain.Request.CallCompletions | Poketrader/Pods/Alamofire/Source/Request.swift:590-590 | calls the completions taken, in their order |
| RequestChain.Request.ResponseSerializerDidComplete | Poketrader/Pods/Alamofire/Source/Request.swift:605-608 | records the completion and goes on with the chain |
| RequestChain.Request.DoCancel | Poketrader/Pods/Alamofire/Source/Request.swift:667-687 | cancels unless finished, and schedules finish exactly when the cancellation is accepted and no task is under way |
| RequestChain.Request.RunScheduledResume | Poketrader/Pods/Alamofire/Source/Request.swift:543-545 | the scheduled resume, if requests start at once |
| RequestChain.Request.RunScheduledFinish | Poketrader/Pods/Alamofire/Source/Request.swift:675-678 | the scheduled finish |
| RequestChain.Request.DoSuspend | Poketrader/Pods/Alamofire/Source/Request.swift:693-708 | suspends where the table allows it |
| RequestChain.Request.DoResume | Poketrader/Pods/Alamofire/Source/Request.swift:714-729 | resumes where the table allows it |
| StreamCompletion.StepKeeps | Poketrader/Pods/Alamofire/Source/Request.swift:1299-1311 | every locked section keeps the invariant |
| StreamCompletion.Safety | Poketrader/Pods/Alamofire/Source/Request.swift:1299-1391 | in every run the counter counts the invocations outstanding, nothing is held back at zero, and every completion is in one of three places |
| StreamCompletion.CounterExact | Poketrader/Pods/Alamofire/Source/ResponseSerialization.swift:1079-1095 | the counter is the work not yet handled, and zero exactly when every handler has handled every chunk |
| StreamCompletion.EachHandlerEachChunk | Poketrader/Pods/Alamofire/Source/Request.swift:1299-1311 | over every run each chunk is handled, or still to be handled, once by every handler that was added before it came |
| StreamCompletion.StepInOrder | Poketrader/Pods/Alamofire/Source/ResponseSerialization.swift:1085-1095 | completions keep their order on the way: held back behind the others, let go as one batch, batches released oldest first |
| StreamCompletion.ReleasedOnce | Poketrader/Pods/Alamofire/Source/Request.swift:1372-1391 | a completion is held back, on its way or released: in one place, and so released at most once |
| StreamCompletion.NothingHeldBack | Poketrader/Pods/Alamofire/Source/ResponseSerialization.swift:1085-1095 | with every handler finished no completion is held back |
| StreamCompletion.LetGoWhenAllHandled | Poketrader/Pods/Alamofire/Source/ResponseSerialization.swift:1085-1095 | at the moment a completion is let go every handler has handled every chunk received so far |
| StreamCompletion.ReleasedBeforeHandled | Poketrader/Pods/Alamofire/Source/Request.swift:1299-1311 | a run in which a completion reaches its queue although a chunk has not been handled |
| StreamCompletion.DataHarmlessIff | Poketrader/Pods/Alamofire/Source/Request.swift:1299-1311 | in every continuation without further data completions reach their queues with all work done, exactly when the chunk came with no batch on its way, or found no handler and nothing outstanding |
| StreamCompletion.HarmlessRunsAreClean | Poketrader/Pods/Alamofire/Source/Request.swift:1299-1391 | over every run whose chunks are harmless each completion reaches its queue with all work received done |
| StreamCompletion.ReleasedAfterAllHandled | Poketrader/Pods/Alamofire/Source/Request.swift:1372-1391 | in particular when no data comes after the first completion, and then the work stays done |
| StreamCompletion.DataStreamRequest.ResponseStream | Poketrader/Pods/Alamofire/Source/ResponseSerialization.swift:991-1006 | adds a handler for later chunks and hands its completion to the serializer chain |
| StreamCompletion.DataStreamRequest.DidReceive | Poketrader/Pods/Alamofire/Source/Request.swift:1299-1311 | one invocation for every handler there is; the invariant is kept |
| StreamCompletion.DataStreamRequest.UpdateAndCompleteIfPossible | Poketrader/Pods/Alamofire/Source/ResponseSerialization.swift:1085-1095 | counts one down and lets the completions go at zero; the invariant is kept |
| StreamCompletion.DataStreamRequest.StreamDidComplete | Poketrader/Pods/Alamofire/Source/Request.swift:1372-1391 | releases at once at zero and otherwise holds back; the invariant is kept |
| StreamCompletion.DataStreamRequest.RunBatch | Poketrader/Pods/Alamofire/Source/ResponseSerialization.swift:1091-1092 | the queued job releases the completions it captured, in order |
| StreamChain.StepKeeps | Poketrader/Pods/Alamofire/Source/Request.swift:1372-1391 | every step of the request as a whole keeps the invariants of the chain and of the streams, and what the chain calls is what the streams complete |
| StreamChain.Safety | Poketrader/Pods/Alamofire/Source/ResponseSerialization.swift:1003-1006 | they hold over every run with timely registrations, a handler and its completion being added in two sections |
| StreamChain.CallsKnown | Poketrader/Pods/Alamofire/Source/Request.swift:567-599 | the chain calls only completions the streams have handed in |
| StreamChain.ReleasedAtMostOnce | Poketrader/Pods/Alamofire/Source/Request.swift:1372-1391 | over every such run a completion is held back, on its way or released as often as the chain called it, and never more often than it was handed in |
| StreamChain.ReleasedAfterReports | Poketrader/Pods/Alamofire/Source/Request.swift:567-599 | none reaches its queue before every serializer of the request has reported |
| StreamChain.NothingLost | Poketrader/Pods/Alamofire/Source/ResponseSerialization.swift:1085-1095 | once the chain has finished, every handler returned and every batch run, all completions handed in have been released |
| ImageGif.GcdForPair | Poketrader/Poketrader/Util/ImageGif.swift:90-120 | the loop computes what Euclid's recursion says; a missing argument gives the other, or 0 |
| ImageGif.PairGcdIsGcd | Poketrader/Poketrader/Util/ImageGif.swift:110-119 | on any two integers it traps exactly on a smaller value of zero and on -1 with the least integer, and otherwise gives a nonzero common divisor that every common divisor divides, positive for positive arguments |
| ImageGif.TurnTraps | Poketrader/Poketrader/Util/ImageGif.swift:110-119 | only the first two turns of the loop can trap |
| ImageGif.EuclidStep | Poketrader/Poketrader/Util/ImageGif.swift:110-119 | one turn of the loop keeps the common divisors, negative numbers and truncating remainder included |
| ImageGif.GcdForArray | Poketrader/Poketrader/Util/ImageGif.swift:122-134 | for any integers: 1 for none, no result exactly when one of the pairs traps, and otherwise their greatest common divisor; among values that are not negative exactly a zero traps |
| ImageGif.FoldedIsGcd | Poketrader/Poketrader/Util/ImageGif.swift:127-131 | the running divisor is one of all values so far, and is lost exactly at the first pair that traps |
| ImageGif.NoTrapWithoutZero | Poketrader/Poketrader/Util/ImageGif.swift:127-131 | values of either sign do not trap as long as none is zero or the least integer |
| ImageGif.TotalDuration | Poketrader/Poketrader/Util/ImageGif.swift:151-159 | the sum of the delays, trapping exactly when a partial sum leaves the range |
| ImageGif.AnimatedImageWithSource | Poketrader/Poketrader/Util/ImageGif.swift:136-178 | unless the duration does not fit, frames times tick is the duration, and every millisecond shows the image whose delay covers it |
| ImageGif.ExpandPlays | Poketrader/Poketrader/Util/ImageGif.swift:166-173 | repeating images delay / tick times plays the animation for every tick that divides all delays |
| ImageGif.PlayableIffDivides | Poketrader/Poketrader/Util/ImageGif.swift:161-173 | when neighbouring images differ, some frame list with this tick plays the animation exactly when the tick divides every delay |
| ImageGif.GcdIsLongestTick | Poketrader/Poketrader/Util/ImageGif.swift:161-173 | so no frame list with a tick above the gcd can play it |

## Left out

- Structs as memory: a struct to decode into is an array of slots updated in place, but each slot is a value, a nested
  struct or an array of entries included, not bytes at an address. What a failed decode has already stored, aliasing
  between structs, padding and array entries past the count are not captured.
- nanopb callbacks, custom stream callbacks, extension fields, pointer fields, `pb_release` and malloc: user code and heap
  management.
- Fixed-count repeated fields: their counter lives outside the message, and the code supports one of them only.
- `pb_encode_delimited`, `pb_decode_delimited` and the null-terminated variants: thin wrappers.
- Negative varint compensation and the configurations without 64-bit integers, with buffers only, or with unpacked
  arrays: other builds of the same code.
- Error message strings of nanopb: a failed operation is only failed.
- Wrap-around of `size_t`: sizes of one message, at every level, are assumed to fit 64 bits (`StreamEncoder.HeldMsg`).
- StreamCompletion.ReleasedOnce: speaks of the streams alone, where a completion the chain calls twice is released twice;
  StreamChain.ReleasedAtMostOnce is about the two together, where it is called once. That queues eventually run is a
  matter of scheduling, and StreamChain.NothingLost says what holds when they have.
- AuthenticationInterceptor.ExactlyOnePlace: says at most once for the same reason, with
  AuthenticationInterceptor.NothingStranded beside it.
- Appending the same input stream to a form twice, and opening and closing of streams.
- MultipartStreams.MultipartForm.Encode: the state of the streams after an error is not described.
- MultipartStreams.OutputStream.WriteAll: what a stream that regains space holds after a gap is described by its length
  and the count of bytes given up, not byte by byte.
- Boundary generation, MIME types, content disposition headers and files on disk: random or foreign.
- The tasks of a request: what `cancel`, `resume` and `suspend` ask of the URL session, progress, metrics, validation.
- Retry of requests through the session, and serializers registered after finishing, beyond the results on late
  registration.
- Delays in seconds as floating point numbers and images missing from the source: the model starts from whole positive
  milliseconds and one image for each delay.
- Everything else in the repository (view controllers, storage, networking front ends, other vendored pods): user
  interface, forwarding or foreign calls.
