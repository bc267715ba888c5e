# Verified models of SuShare's vendored protocol code

SuShare ships two libraries whose code is intricate enough to be worth proving: nanopb 0.3.9.5, a
table-driven Protocol Buffers encoder and decoder in C, and the networking library Alamofire. This
project models the hard parts of both and proves what they are for. `dafny verify dfyconfig.toml`
checks all of it.

## What is modelled

**The codec** (`SuShare/Pods/nanopb`), in the 64-bit configuration of the project's `.xcconfig` files
with `PB_FIELD_32BIT`, for static fields and memory buffers. Those files also set `PB_ENABLE_MALLOC`. The
model is the build without it, and both agree on static fields: releasing a static member frees nothing
and writes nothing, and the search for the old member of a oneof fails only if its selector names no
field, which never happens to a struct that pb_decode set to defaults.

- `Wire.dfy` gives the wire format of the Protocol Buffers Encoding specification as functions on byte
  sequences: varints in the general and in the fast 32-bit reading, zigzag and fixed-width integers,
  length prefixes, tags, skipping. `Bits.dfy` has the shifts and ors beneath them.
- `Descriptor.dfy` and `Message.dfy` give the field tables, the struct layout by offset deltas, and
  struct memory as one typed slot per field; the members of a oneof share their first member's slot.
- `Encoding.dfy` and `Decoding.dfy` specify the bytes of a struct, and the struct decoded from bytes.
- `InputStream.dfy`, `OutputStream.dfy` and `FieldIterator.dfy` are the mutable streams and the cyclic
  iterator; `Encoder.dfy` and `Decoder.dfy` are the routines of pb_encode.c and pb_decode.c over them,
  each proved against its specification function. The struct is a mutable array of slots.
- `Validity.dfy` says which messages a table can carry. `Scalars.dfy` has the round trip of single
  values, `Restoring.dfy` that of fields and messages, `LongRecords.dfy` the refusal of records that are
  too long, and `RoundTrip.dfy` the main theorem with its exact conditions.
- `WireFormat.dfy` gives the wire format in plain numbers, and `Layout.dfy` the C structs that the macros
  of pb.h describe. `Presence.dfy` says what is left out and what refused, `Containment.dfy` that decoding
  stays within the struct, and `Merging.dfy` what fields that come again or not at all do.
- `Canonical.dfy`, `Locality.dfy`, `UnknownFields.dfy`, `Framing.dfy` and `EndToEnd.dfy` hold further
  results about the specifications, and so about the routines.

**The credential refresh protocol** of `AuthenticationInterceptor.swift`. `Refresh.dfy` is a state
machine whose steps are the sections under the lock, the blocks of the serial queue, the answers of the
authenticator, and the moments between a decision and its delivery. `RefreshAnswers.dfy` has the table of
decisions and proves that the answers given are those. `AuthenticationInterceptor.dfy` is the object whose
fields those steps change.

**Three smaller protocols**: multipart bodies (`Multipart.dfy`, `MultipartFormData.dfy`, and the receiver in
`MultipartReader.dfy`), the map of tasks
(`TaskMap.dfy`, `RequestTaskMap.dfy`) and the completion counter of streams (`StreamCompletion.dfy`,
`DataStreamRequest.dfy`). In each the first file has the specification and its theorems, the second
the class whose methods are proved against it. `Basics.dfy` has what both libraries share.

## Conventions

- A valid message has bools of 0 or 1, numbers that fit their 1, 2, 4 or 8 bytes, NUL-free strings that
  leave room for the terminator, byte strings and counts that fit, has-flags of 0 or 1, and selectors
  that are 0 or name a member. A well-formed table has distinct tags from 1 to 2^29 - 1 and static fields
  that take room in the struct, as every C object does (a generated empty message has a dummy member).
- `Same` compares what two structs say: has-flags, counts and selectors, and the values they turn on.
- `size_t` arithmetic is on unbounded numbers. Where the source computes in 8, 32 or 64 bits and it
  matters, the wrap-around is written out: the bit position of the fast varint reader, the string length
  plus terminator, the cast of a length to 64 bits, the bitmap words.
- What C returns as `false` with a message is a `Failure` with the message as a constructor.
- Clock readings, the answers of the authenticator, the sizes of partial reads and writes and the
  interleaving of queues are inputs or nondeterministic choices.

## Where the code departs from what it says or seems to say

- pb_decode.c: an empty table has only its terminator, of tag 0. A field number of 0 (first byte 1 to 7)
  makes pb_field_iter_find stop at it, and the field is decoded like a required bool into a dummy place.
  The model does the same.
- pb_decode.c: the wire type of a known field is not compared with the field's type, except to tell
  packed from unpacked arrays. The model does not compare it either.
- pb_encode.c writes lengths of up to 64 bits; pb_decode.c reads them in 32. So a message comes back
  exactly when all its records are shorter than 2^32 bytes (`RoundTrip.MessageRoundTrip`), and there are
  valid messages with longer ones (`RoundTrip.LongRecordExists`).
- pb_encode.c leaves out a zero in a field without a has-flag, and pb_decode.c then puts the field's
  default there. So a zero over another default is lost, and nothing else is
  (`RoundTrip.ZeroOverDefaultIsLost`, `RoundTrip.MessageRoundTrip`).
- RequestTaskMap.swift calls itself one to one, but its setters leave the old partner of a half behind
  (`TaskMap.AssociateConsistent` says exactly when).
- MultipartFormData.swift: the write loop asks for room before each piece and ends without an error when
  there is none, and the next buffer is written all the same. So the file may have holes and need not even
  be a prefix of the body (`MultipartFormData.HoleIsNoPrefix`); it is the body if and only if the stream
  had room whenever it was asked (`MultipartFormData.FormData.WriteEncodedData`).
- pb_decode.c: the 32-bit varint reader lets trailing zeros through, as its comment (line 223) says. But of a
  padded varint of five digits it does not look at the bits beyond the 32nd: 2^32 with a zero behind it is
  read as 0, where the minimal form is refused (`WireFormat.PaddedRead`, `Wire.FastVarintAccepts`).
- pb_decode.c: an item of a packed array that cannot be decoded is reported as an overflow of the array,
  unless nothing of the record is left behind it (`Merging.PackedRefusal`).
- pb_decode.c: required fields beyond the 64th of a table are not checked (`Merging.CompleteExactly`).
- pb_decode.c: a submessage in a oneof starts from its defaults each time it comes, so two records of the
  same member are not merged (`Merging.MemberReplaces`), though a comment (line 1137) says so and those of
  other fields are (`Merging.SubmessagesMerge`).
- Request.swift: a completion event is let go at a moment when no handler runs, through a dispatched
  block. Data that arrives from then on is handled after the completion (`StreamCompletion.LateData`); the
  completion is the last thing a handler sees if and only if there is none
  (`StreamCompletion.CompletionsLastExactly`). A URLSession hands over all of a task's data
  (`SessionDelegate.swift:227-238`) before it reports the task complete, and from there
  `Request.swift:446-506` goes on to `finish`, which starts the completions: these runs are those of
  `StreamCompletion.DataFirstCompletesLast`. Where `finish` does not come from that report (a request
  cancelled when its task counts as completed, `Request.swift:657-662`, and the end of the session), only
  a URLSession that hands over nothing more keeps to this case, and a later `didReceive` is the other.

## Model

| member | source | states |
|---|---|---|
| `RoundTrip.MessageRoundTrip` | SuShare/Pods/nanopb/pb_encode.c:519-541 | For every well-formed table, every valid nested message and whatever the destination struct held before: encoding succeeds; if every submessage and packed array takes less than 2^32 bytes, decoding those bytes succeeds and uses them up, and the struct is the same message (up to what has-flags, counts and selectors turn off) if and only if no field without a has-flag, at any depth, holds a zero over another default; if some record is longer, for outputs below 2^63 bytes, decoding fails |
| `RoundTrip.CarriedRoundTrip` | SuShare/Pods/nanopb/pb_decode.c:1075-1087 | A message that meets these conditions comes back as it was, into any struct |
| `RoundTrip.RestoredIsSame` | SuShare/Pods/nanopb/pb_encode.c:237-350 | What the decoder restores of a valid message, where omitted fields hold their defaults, is the message exactly when its zeros are over zero defaults |
| `RoundTrip.LongRecordExists` | SuShare/Pods/nanopb/pb_decode.c:372-385 | The refusal is not empty: 2^29 negative numbers in a packed int32 array are a valid message that is encoded and not decoded |
| `Restoring.EncodedIsWhole` | SuShare/Pods/nanopb/pb_decode.c:925-1073 | The bytes of a valid message, decoded into a struct set to defaults, go through the field loop without a zero tag, restore the message, and have every tracked required field |
| `Restoring.FieldRoundTrip` | SuShare/Pods/nanopb/pb_decode.c:941-1010 | Decoding the bytes of field `i` in front of the later fields sets exactly that field: earlier fields keep their values, later ones stay at their defaults, also where oneof members share storage |
| `Restoring.ItemRoundTrip` | SuShare/Pods/nanopb/pb_decode.c:1503-1525 | Each value decodes from its own bytes, whatever follows them; a submessage needs a defaulted struct unless it is an array entry |
| `Restoring.PackedRoundTrip` | SuShare/Pods/nanopb/pb_decode.c:421-453 | A packed payload appends exactly its items to the ones that are there |
| `Restoring.TaggedRoundTrip` | SuShare/Pods/nanopb/pb_decode.c:454-464 | An unpacked array, one field per entry, is rebuilt entry by entry |
| `RoundTrip.ZeroItemIsFresh` | SuShare/Pods/nanopb/pb_encode.c:237-328 | A value that counts as proto3 zero is what a defaulted field holds exactly when the defaults at every depth of it are zero |
| `RoundTrip.ZeroOverDefaultIsLost` | SuShare/Pods/nanopb/pb_encode.c:346-350 | A zero of any type but a submessage in a has-flag-less field is not written, and comes back if and only if the field's default is zero: the input on which the round trip fails |
| `LongRecords.LongRecordRefused` | SuShare/Pods/nanopb/pb_decode.c:372-385 | A record of 2^32 or more (and fewer than 2^63) bytes is refused by the decoder |
| `LongRecords.LongMessageRefused` | SuShare/Pods/nanopb/pb_decode.c:925-1021 | A message with such a record at any depth is not decoded |
| `Validity.DefaultsFresh` | SuShare/Pods/nanopb/pb_decode.c:836-919 | After pb_message_set_to_defaults every field, at any depth, is at its default, cleared or counted empty, whatever the struct held |
| `Scalars.VarintFieldExact` | SuShare/Pods/nanopb/pb_decode.c:1329-1412 | A varint field accepts a value exactly when its number (the low 32 bits as a signed number, for signed fields narrower than 64 bits) fits the field, and stores exactly that number |
| `Scalars.WireValueRoundTrip` | SuShare/Pods/nanopb/pb_encode.c:767-824 | The wire value of every number of every 1, 2, 4 and 8-byte signed, unsigned and zigzag field is read back to that number |
| `Scalars.FixedItemRoundTrip` | SuShare/Pods/nanopb/pb_encode.c:826-841 | fixed32 and fixed64 values are read back from their little-endian bytes |
| `Scalars.BlobRoundTrip` | SuShare/Pods/nanopb/pb_encode.c:843-902 | Byte strings that fit, NUL-free strings that leave room for the terminator, and fixed-length bytes are written with their length and read back |
| `Canonical.EncodingIdentifies` | SuShare/Pods/nanopb/pb_encode.c:519-541 | Two messages that the codec carries have the same encoding if and only if they are the same message |
| `Canonical.ReencodesAlike` | SuShare/Pods/nanopb/pb_decode.c:1075-1087 | Encoding what was decoded from a message's encoding gives the same bytes again |
| `EndToEnd.Serialize` | SuShare/Pods/nanopb/pb_encode.c:558-567 | A buffer of exactly the size that pb_get_encoded_size reports is filled to the last byte by pb_encode |
| `EndToEnd.SerializeInto` | SuShare/Pods/nanopb/pb_encode.c:519-541 | Into a buffer of any size encoding succeeds exactly when the message can be written and fits; the bytes are at its start, and those behind them are untouched |
| `EndToEnd.Parse` | SuShare/Pods/nanopb/pb_decode.c:1075-1087 | pb_decode of such a buffer succeeds and leaves the same message in the destination array |
| `Locality.LoopFolds` | SuShare/Pods/nanopb/pb_decode.c:941-1010 | The field loop on `a + b`, where `a` is whole fields, is the loop on `a` followed by the loop on `b` into the same struct, with the same fields seen, or the same failure |
| `Locality.LoopStopsBefore` | SuShare/Pods/nanopb/pb_decode.c:298-319 | After a zero tag has ended the message, later bytes are left exactly as they are |
| `Locality.LoopSeen` | SuShare/Pods/nanopb/pb_decode.c:1000-1005 | What was seen before only adds to the fields seen; it changes nothing else |
| `Locality.DecodeMerges` | SuShare/Pods/nanopb/pb_decode.c:925-1073 | Decoding a concatenation merges the second part into the struct of the first; a required field is missing only if neither part has it |
| `Locality.DecSlotLocal` | SuShare/Pods/nanopb/pb_decode.c:406-480 | A field that decodes looks at no byte behind the ones it consumes |
| `Locality.StepLocal` | SuShare/Pods/nanopb/pb_decode.c:941-1010 | A round of the field loop depends on the bytes of its own field only |
| `Presence.LeftOutExactly` | SuShare/Pods/nanopb/pb_encode.c:237-417 | A field takes no bytes exactly when it says nothing: has-flag off, no entries, another member selected, or without a has-flag the number 0, no bytes, or a submessage whose own encoding is empty |
| `Presence.EmptyMessage` | SuShare/Pods/nanopb/pb_encode.c:519-541 | A message takes no bytes exactly when each of its fields says nothing |
| `Presence.ZeroedIsEmpty` | SuShare/Pods/nanopb/pb_encode.c:237-328 | A zeroed struct of a table without required fields and fixed-length byte strings, at any depth, takes no bytes |
| `Presence.MessageRefused` | SuShare/Pods/nanopb/pb_encode.c:144-233 | Encoding fails exactly when something that is not left out, at any depth, cannot be written: a count beyond its array, bytes beyond their buffer, or a number in a field of no known size |
| `Containment.DecodedIsContained` | SuShare/Pods/nanopb/pb_decode.c:1075-1087 | Whatever the bytes and whatever the struct held, what pb_decode accepts is within the struct at every depth: byte strings with their size, strings with their terminator, counts, has-flags and selectors |
| `Containment.BlobAcceptedExactly` | SuShare/Pods/nanopb/pb_decode.c:1431-1548 | A record is accepted as a byte string exactly when it fits: with 4 bytes of size, with its terminator, or with all or none of a fixed length |
| `Merging.LastOneWins` | SuShare/Pods/nanopb/pb_decode.c:413-420 | A scalar replaces what its field held, whatever that was, and sets its has-flag or selects it in its oneof |
| `Merging.EntryAppended` | SuShare/Pods/nanopb/pb_decode.c:454-464 | An entry is appended to an array and leaves the others as they are; a full array refuses it |
| `Merging.PackedFixedExactly` | SuShare/Pods/nanopb/pb_decode.c:426-453 | A packed array of fixed-width items is accepted exactly when the record is a whole number of items for which there is room, and otherwise overflows |
| `Merging.PackedRefusal` | SuShare/Pods/nanopb/pb_decode.c:435-447 | A number that does not fit is reported as such at the end of the record, and as an overflow of the array in front of other items |
| `Merging.PackedUnfinished` | SuShare/Pods/nanopb/pb_decode.c:435-453 | A packed array that ends within a varint is reported as the end of the stream |
| `Merging.SubmessagesMerge` | SuShare/Pods/nanopb/pb_decode.c:1503-1525 | Two records of a submessage have the effect of one record with the bytes of both |
| `Merging.MemberReplaces` | SuShare/Pods/nanopb/pb_decode.c:466-476 | A member of a oneof replaces what was there, also itself: what decoding it gives does not depend on the storage before |
| `Merging.CompleteExactly` | SuShare/Pods/nanopb/pb_decode.c:1000-1073 | Bytes that go through the field loop are a whole message exactly when the tag of every required field with fewer than 64 required fields in front of it was read |
| `WireFormat.VarintDigits` | SuShare/Pods/nanopb/pb_encode.c:599-619 | A varint has the base 128 digits of its number, least significant first, all but the last marked, and no more than needed |
| `WireFormat.FixedDigits` | SuShare/Pods/nanopb/pb_encode.c:632-657 | Fixed-width numbers have their base 256 digits, least significant first |
| `WireFormat.FieldBegins` | SuShare/Pods/nanopb/pb.h:319-324 | A field begins with eight times its number plus 0, 1, 2 or 5 by its type, a packed array with 2 |
| `WireFormat.SkippedByNumber` | SuShare/Pods/nanopb/pb_decode.c:321-331 | Wire types 0, 1, 2 and 5 skip a varint, eight bytes, a record and four bytes; others are refused |
| `WireFormat.RecordExactly` | SuShare/Pods/nanopb/pb_decode.c:372-385 | A record announced with more bytes than there are is refused, as a submessage, a packed array or a byte string; otherwise it is cut out exactly |
| `WireFormat.PaddedRead` | SuShare/Pods/nanopb/pb_decode.c:206-241 | The fast reader takes a varint padded with any number of zeros, and reads the low 32 bits of its five digits |
| `WireFormat.CastExact` | SuShare/Pods/nanopb/pb_decode.c:1329-1364 | The cast to a signed type gives the one number in range that is congruent modulo 2^bits |
| `WireFormat.RangeExactly` | SuShare/Pods/nanopb/pb_decode.c:1329-1412 | A varint field accepts exactly the values whose number is in the range of its 1, 2, 4 or 8 bytes: the value itself, its zigzag number, or the number congruent to it modulo 2^64 or 2^32 |
| `WireFormat.ShortNegative` | SuShare/Pods/nanopb/pb_decode.c:1336-1346 | A negative number in at most 32 bits is read alike from ten bytes and from the five bytes of other encoders |
| `WireFormat.BoolRead` | SuShare/Pods/nanopb/pb_decode.c:1316-1327 | Every varint but 0 is read as true, and every stored number but 0 is written as true |
| `WireFormat.NoFixedBytes` | SuShare/Pods/nanopb/pb_decode.c:1527-1548 | Fixed-length bytes of which none are sent are zeros |
| `WireFormat.StringWritten` | SuShare/Pods/nanopb/pb_encode.c:864-888 | Of a string with a zero byte in it only what is in front of that is written |
| `WireFormat.StringEnds` | SuShare/Pods/nanopb/pb_encode.c:864-888 | A string ends at its first zero byte, or with its buffer |
| `UnknownFields.UnknownTransparent` | SuShare/Pods/nanopb/pb_decode.c:957-986 | Inserting any skippable field with a tag not in the table, at any field boundary at any depth, changes neither the struct, the fields seen, the bytes left nor the error; the enclosing tags and lengths may be any bytes that are read as such, minimal or overlong |
| `UnknownFields.DecodeIgnoresUnknown` | SuShare/Pods/nanopb/pb_decode.c:1075-1087 | The same for a whole pb_decode |
| `UnknownFields.MinimalFrames` | SuShare/Pods/nanopb/pb_encode.c:663-706 | The tags and lengths that the encoder writes are such bytes |
| `UnknownFields.WireTypesUnknown` | SuShare/Pods/nanopb/pb_decode.c:278-331 | Every absent field number below 2^29 with a varint, a 64-bit, a 32-bit or a length-delimited value is such a field |
| `Framing.StreamRoundTrip` | SuShare/Pods/nanopb/pb_decode.c:1104-1117 | A concatenation of pb_encode_delimited outputs, decoded one by one into the same struct, gives the list of messages and uses up all bytes |
| `Framing.DelimitedRoundTrip` | SuShare/Pods/nanopb/pb_encode.c:543-546 | One delimited message is read back in front of any bytes, which are left |
| `Framing.NullTerminatedRoundTrip` | SuShare/Pods/nanopb/pb_encode.c:548-556 | pb_decode of a pb_encode_nullterminated output followed by any bytes returns the message and leaves exactly those bytes |
| `Wire.FastVarintAgrees` | SuShare/Pods/nanopb/pb_decode.c:187-275 | Whenever the 32-bit reader accepts a varint of at most ten bytes it returns the low 32 bits of the 64-bit reader's value and consumes the same bytes |
| `Wire.FastVarintAccepts` | SuShare/Pods/nanopb/pb_decode.c:187-247 | On the encoder's bytes for a value below 2^63 the 32-bit reader accepts exactly the values below 2^32 |
| `Wire.FastVarintAcceptsNegative` | SuShare/Pods/nanopb/pb_decode.c:213-237 | It accepts every sign-extended negative 32-bit integer and returns its two's complement |
| `Wire.Varint32RoundTrip` | SuShare/Pods/nanopb/pb_decode.c:187-252 | Every value below 2^32 comes back from the 32-bit reader, consuming its own bytes only |
| `Wire.Varint64RoundTrip` | SuShare/Pods/nanopb/pb_decode.c:255-275 | Every 64-bit value comes back from the 64-bit reader, consuming its own bytes only |
| `Wire.VarintFitsBuffer` | SuShare/Pods/nanopb/pb_encode.c:599-619 | No 64-bit value overruns the encoder's ten-byte buffer |
| `Wire.LittleEndianRoundTrip` | SuShare/Pods/nanopb/pb_encode.c:632-657 | A number that fits `n` bytes comes back from its `n` little-endian bytes |
| `Wire.DelimitedOfPrefixed` | SuShare/Pods/nanopb/pb_decode.c:372-385 | A record with its length in front is carved out whole, whatever follows |
| `Wire.DecodeTagOfBytes` | SuShare/Pods/nanopb/pb_decode.c:298-319 | Every non-zero tag below 2^29 comes back with its wire type |
| `InputStream.IStream.FromBuffer` | SuShare/Pods/nanopb/pb_decode.c:159-181 | A stream over the whole buffer |
| `InputStream.IStream.Read` | SuShare/Pods/nanopb/pb_decode.c:103-137 | Reads or skips exactly `count` bytes or fails with nothing consumed; the end of the stream stays where it is |
| `InputStream.IStream.BufRead` | SuShare/Pods/nanopb/pb_decode.c:87-101 | Passes over the bytes, and copies exactly them when there is a destination |
| `InputStream.IStream.ReadByte` | SuShare/Pods/nanopb/pb_decode.c:141-157 | Takes the first byte, or fails exactly at the end |
| `InputStream.IStream.DecodeVarint32Eof` | SuShare/Pods/nanopb/pb_decode.c:187-247 | Computes the 32-bit varint reading, and reports the end exactly when nothing was left |
| `InputStream.IStream.DecodeVarint` | SuShare/Pods/nanopb/pb_decode.c:255-275 | Computes the 64-bit varint reading |
| `InputStream.IStream.SkipVarint` | SuShare/Pods/nanopb/pb_decode.c:278-287 | Skips exactly one varint |
| `InputStream.IStream.DecodeTag` | SuShare/Pods/nanopb/pb_decode.c:298-319 | Splits the tag, and tells the end of the message from an error |
| `InputStream.IStream.SkipField` | SuShare/Pods/nanopb/pb_decode.c:321-331 | Skips one field by its wire type; other wire types are refused |
| `InputStream.IStream.MakeSubstream` | SuShare/Pods/nanopb/pb_decode.c:372-385 | The substream has exactly the record's bytes; the parent keeps the bytes behind it; together they end where the parent ended |
| `InputStream.IStream.CloseSubstream` | SuShare/Pods/nanopb/pb_decode.c:387-400 | The parent continues behind the record, whatever of it was left unread |
| `Descriptor.PointerIdentifiesSlot` | SuShare/Pods/nanopb/pb_common.c:20-76 | Two fields have the same computed data offset exactly when they share storage |
| `Descriptor.FirstAtIsHome` | SuShare/Pods/nanopb/pb_common.c:20-76 | The first field with a data offset is the one whose storage is there: the slot can be found from the pointer alone |
| `Descriptor.RangesApart` | SuShare/Pods/nanopb/pb_common.c:36-74 | Fields that do not share storage occupy disjoint byte ranges, also behind a oneof whose members differ in size |
| `FieldIterator.FieldIter.DataSlot` | SuShare/Pods/nanopb/pb_common.c:20-76 | The iterator's data pointer, as the delta updates leave it, leads to the slot of the current field |
| `Layout.OffsetsAreThose` | SuShare/Pods/nanopb/pb.h:387-555 | For every C struct whose table the macros build from absolute offsets and sizes, the computed offsets are those of the members and of their flags, counts and selectors, also behind arrays, pointers and unions |
| `Layout.IteratorPoints` | SuShare/Pods/nanopb/pb_common.c:8-97 | Wherever its methods led the iterator, its pointers are those of the struct's member and of its flag |
| `Layout.EntrySpans` | SuShare/Pods/nanopb/pb.h:434-455 | The table keeps the number of entries of an array, and the room that every member takes |
| `Layout.TableFits` | SuShare/Pods/nanopb/pb.h:399-405 | Every such table is one that the codec can work with: members take room, stand clear of each other, and share their selector in a union |
| `Layout.SameHome` | SuShare/Pods/nanopb/pb.h:403-405 | Fields share a slot exactly when their members are in the same place |
| `Descriptor.HomesApart` | SuShare/Pods/nanopb/pb_common.c:38-44 | Only members of the same oneof share storage |
| `Descriptor.RequiredIndexInjective` | SuShare/Pods/nanopb/pb_common.c:65-70 | The running index of a required field identifies it |
| `Descriptor.RequiredIndexOnto` | SuShare/Pods/nanopb/pb_decode.c:1030-1047 | Every index below the number of required fields belongs to one of them |
| `FieldIterator.FieldIter.Begin` | SuShare/Pods/nanopb/pb_common.c:8-18 | Pointers and required index are those of the first field |
| `FieldIterator.FieldIter.Next` | SuShare/Pods/nanopb/pb_common.c:20-76 | Steps cyclically; pointers and required index stay those computed from scratch, also within a oneof |
| `FieldIterator.FieldIter.Find` | SuShare/Pods/nanopb/pb_common.c:78-97 | From any position finds the first field with the tag, visiting none twice; fails exactly when there is none, and is then back where it was |
| `OutputStream.OStream.Write` | SuShare/Pods/nanopb/pb_encode.c:103-121 | Writes exactly the bytes and counts them, or fails exactly when they do not fit; a sizing stream only counts |
| `OutputStream.OStream.BufWrite` | SuShare/Pods/nanopb/pb_encode.c:74-84 | Replaces exactly the bytes at the position |
| `OutputStream.SecondPass` | SuShare/Pods/nanopb/pb_encode.c:735-756 | A second pass with exactly the size of the first succeeds, writes the same number of bytes, and is for the parent like writing them itself |
| `OutputStream.EmittedNext` | SuShare/Pods/nanopb/pb_encode.c:525-538 | Operations in a row emit the concatenation of what each has to emit, and stop at the first failure |
| `Encoder.EncodeVarint` | SuShare/Pods/nanopb/pb_encode.c:599-619 | Emits the base 128 groups of any 64-bit value |
| `Encoder.FillVarint` | SuShare/Pods/nanopb/pb_encode.c:607-616 | The loop fills the ten-byte buffer with exactly those groups |
| `Encoder.SecondPassInto` | SuShare/Pods/nanopb/pb_encode.c:735-756 | The second pass into a stream of the announced size emits the message and passes the position on |
| `Encoder.EncodeCurrentField` | SuShare/Pods/nanopb/pb_encode.c:525-538 | Emits the field that the data pointer leads to, so that what was emitted and what is left make up the message |
| `Encoder.EncodeSVarint` | SuShare/Pods/nanopb/pb_encode.c:621-630 | Emits the zigzag varint, computed by shifting and inverting, of every 64-bit integer including the minimum |
| `Encoder.EncodeFixed32` | SuShare/Pods/nanopb/pb_encode.c:632-642 | Emits the four little-endian bytes |
| `Encoder.EncodeFixed64` | SuShare/Pods/nanopb/pb_encode.c:644-657 | Emits the eight little-endian bytes |
| `Encoder.EncodeTagForField` | SuShare/Pods/nanopb/pb_encode.c:660-698 | Emits the tag with the wire type of the field |
| `Encoder.EncodeString` | SuShare/Pods/nanopb/pb_encode.c:700-706 | Emits length and bytes |
| `Encoder.EncString` | SuShare/Pods/nanopb/pb_encode.c:864-888 | Emits the string up to its first NUL or the end of its buffer |
| `Encoder.EncodeItem` | SuShare/Pods/nanopb/pb_encode.c:760-902 | Emits the value as its type says, or refuses an invalid size |
| `Encoder.EncodeSubmessage` | SuShare/Pods/nanopb/pb_encode.c:708-756 | Emits length and message, after a dry run for the size; the size never changes between the passes |
| `Encoder.EncodeArray` | SuShare/Pods/nanopb/pb_encode.c:144-233 | Emits nothing, a packed record or tagged entries, and refuses a count beyond the array |
| `Encoder.EncodePackedArray` | SuShare/Pods/nanopb/pb_encode.c:158-202 | Emits the packed record; the size computed beforehand is that of the items |
| `Encoder.PackedFixedSize` | SuShare/Pods/nanopb/pb_encode.c:166-174 | The size formula for fixed-width items is exact |
| `Encoder.CheckProto3DefaultValue` | SuShare/Pods/nanopb/pb_encode.c:237-328 | Finds exactly the values that count as zero, through nested messages |
| `Encoder.EncodeBasicField` | SuShare/Pods/nanopb/pb_encode.c:332-417 | Emits the field exactly when it is present |
| `Encoder.PbEncode` | SuShare/Pods/nanopb/pb_encode.c:519-541 | Emits the encoding of the struct: into a buffer it succeeds exactly when the bytes fit, and no byte outside the writable window changes |
| `Encoder.PbGetEncodedSize` | SuShare/Pods/nanopb/pb_encode.c:558-567 | Returns exactly the length of the encoding |
| `Encoder.PbEncodeDelimited` | SuShare/Pods/nanopb/pb_encode.c:543-546 | Emits the message behind its length |
| `Encoder.PbEncodeNullterminated` | SuShare/Pods/nanopb/pb_encode.c:548-556 | Emits the message and a zero byte |
| `Decoder.PbDecVarint` | SuShare/Pods/nanopb/pb_decode.c:1329-1364 | Reads a signed varint field, or refuses it with the source's error |
| `Decoder.PbDecUVarint` | SuShare/Pods/nanopb/pb_decode.c:1366-1388 | The same for an unsigned field |
| `Decoder.PbDecSVarint` | SuShare/Pods/nanopb/pb_decode.c:1390-1412 | The same for a zigzag field |
| `Decoder.PbDecFixed32` | SuShare/Pods/nanopb/pb_decode.c:1283-1296 | Or-ing four shifted bytes gives the little-endian number |
| `Decoder.PbDecFixed64` | SuShare/Pods/nanopb/pb_decode.c:1298-1314 | The same for eight bytes |
| `Decoder.LittleEndianOf8` | SuShare/Pods/nanopb/pb_decode.c:1298-1314 | Eight bytes or-ed at their bit positions are the little-endian number |
| `Decoder.PbDecBlob` | SuShare/Pods/nanopb/pb_decode.c:1431-1501 | Reads bytes, strings and fixed-length bytes, with the size checks of each |
| `Decoder.PbDecSubmessage` | SuShare/Pods/nanopb/pb_decode.c:1503-1525 | Decodes the record in a substream, or fails with the error of the record or of the message in it; the parent ends where it ended |
| `Decoder.PbDecPacked` | SuShare/Pods/nanopb/pb_decode.c:421-453 | Appends the packed items when they use up the record, and behind it the parent goes on; otherwise fails with an item's error if that left nothing of the record unread, and with an overflow of the array if it did |
| `Decoder.PbDecPackedItems` | SuShare/Pods/nanopb/pb_decode.c:435-444 | The loop ends with the record used up and all its items stored, or with what is left of it deciding the error |
| `Decoder.PbDecodeStaticField` | SuShare/Pods/nanopb/pb_decode.c:406-480 | Updates exactly the field's slot as the field specification says, or fails with its error |
| `Decoder.SetToDefaults` | SuShare/Pods/nanopb/pb_decode.c:908-919 | Sets the whole struct to defaults, members of a oneof sharing one selector |
| `Decoder.PbDecodeBody` | SuShare/Pods/nanopb/pb_decode.c:957-1010 | Finds the field from wherever the iterator was left and decodes it where the data pointer leads, or skips it, and records a required field in the bitmap |
| `Decoder.PbDecodeFields` | SuShare/Pods/nanopb/pb_decode.c:941-1010 | Runs the field loop to the end of the stream or a zero tag, or fails with the first error |
| `Decoder.MarkSeen` | SuShare/Pods/nanopb/pb_decode.c:1000-1005 | Setting the bit of a required field keeps the two words an exact record of the fields seen |
| `Decoder.AllBitsSet` | SuShare/Pods/nanopb/pb_decode.c:1052-1070 | The word comparisons succeed exactly when all bits below the count are set |
| `Decoder.TrackedIsSeen` | SuShare/Pods/nanopb/pb_decode.c:1030-1070 | All those bits are set exactly when every one of the first 64 required fields was seen |
| `Decoder.CheckRequired` | SuShare/Pods/nanopb/pb_decode.c:1030-1070 | Passes exactly when every one of the first 64 required fields of the table was seen, wherever the iterator stopped |
| `Decoder.PbDecodeNoInit` | SuShare/Pods/nanopb/pb_decode.c:925-1073 | Merges the fields into the struct that is there; fails with the first error, or when a tracked required field is missing; the stream's end is kept on success and not passed on failure |
| `Decoder.PbDecode` | SuShare/Pods/nanopb/pb_decode.c:1075-1087 | The same from the default values |
| `Decoder.PbDecodeDelimited` | SuShare/Pods/nanopb/pb_decode.c:1104-1117 | The same behind a length, leaving what follows |
| `Refresh.RefreshesBounded` | SuShare/Pods/Alamofire/Source/AuthenticationInterceptor.swift:331-367 | In every run, every closed time interval of the window's length has at most `maximumAttempts` started refreshes, and none when that is negative, although the clock is read once for the check and again for the stamp |
| `Refresh.StampKeepsSpacing` | SuShare/Pods/Alamofire/Source/AuthenticationInterceptor.swift:354-367 | A refresh that passes the check is more than the interval after the one `maximumAttempts` before it |
| `Refresh.SpacedCount` | SuShare/Pods/Alamofire/Source/AuthenticationInterceptor.swift:354-367 | Timestamps spaced so have at most `maximumAttempts` in any closed interval of that length |
| `Refresh.RequestsAnsweredOnce` | SuShare/Pods/Alamofire/Source/AuthenticationInterceptor.swift:251-290 | In every state of every run each submitted request is in exactly one place; queues are non-empty only while refreshing; refreshing holds exactly while one refresh is outstanding; once nothing is on its way each request has exactly one answer |
| `Refresh.NeverStuck` | SuShare/Pods/Alamofire/Source/AuthenticationInterceptor.swift:369-401 | While a request has no answer, a step that settles what is under way is possible, without new requests or another refresh |
| `Refresh.SettlingStepLess` | SuShare/Pods/Alamofire/Source/AuthenticationInterceptor.swift:251-401 | Every settling step, enabled in whatever state, leaves less under way |
| `Refresh.EventuallyAnswered` | SuShare/Pods/Alamofire/Source/AuthenticationInterceptor.swift:369-401 | However settling steps follow each other, from every point on a state is reached in which every request has its answer |
| `Refresh.StepConserves` | SuShare/Pods/Alamofire/Source/AuthenticationInterceptor.swift:251-401 | No step loses, duplicates or invents a request |
| `Refresh.StepKeepsOneRefresh` | SuShare/Pods/Alamofire/Source/AuthenticationInterceptor.swift:320-352 | No step starts a second refresh, or leaves a request queued without one |
| `RefreshAnswers.AnswersAreDecided` | SuShare/Pods/Alamofire/Source/AuthenticationInterceptor.swift:251-401 | In every run a request is answered only with what a step before decided by the table of decisions: a credential that is current while no refresh is under way or asked for; missing credential; excessive refresh; the refresh's error for those that waited; retry after a new credential or for an outdated one; no retry without response or authentication error; and from that step on with nothing else |
| `RefreshAnswers.OnWayExactly` | SuShare/Pods/Alamofire/Source/AuthenticationInterceptor.swift:251-401 | In every state the answers given, in hand and due in dispatched blocks are exactly those that were decided before |
| `RefreshAnswers.WaitingRetryAnswered` | SuShare/Pods/Alamofire/Source/AuthenticationInterceptor.swift:320-401 | A failed request that waits for a refresh is answered Retry if that ended with a new credential, and else with its error |
| `RefreshAnswers.RefusedRetryAnswered` | SuShare/Pods/Alamofire/Source/AuthenticationInterceptor.swift:331-337 | A failed request whose refresh the window refuses fails with the excessive refresh error |
| `RefreshAnswers.WaitingAdaptFails` | SuShare/Pods/Alamofire/Source/AuthenticationInterceptor.swift:251-280 | A request that waits for its credential fails with the error of the refresh |
| `RefreshAnswers.RefreshStarts` | SuShare/Pods/Alamofire/Source/AuthenticationInterceptor.swift:331-352 | A refresh is started exactly when one is asked for, none is under way and fewer than the maximum were started in the window: of the credential asked for, with one timestamp |
| `RefreshAnswers.ExcessiveIsTooMany` | SuShare/Pods/Alamofire/Source/AuthenticationInterceptor.swift:354-367 | The check counts the timestamps not before the window's start |
| `RefreshAnswers.CredentialIsLast` | SuShare/Pods/Alamofire/Source/AuthenticationInterceptor.swift:369-371 | The credential is the one that was last set or obtained |
| `RefreshAnswers.CheckedIsCurrent` | SuShare/Pods/Alamofire/Source/AuthenticationInterceptor.swift:307-326 | A request is on its way to the lock exactly when it failed with the current credential; the refresh it asks for is of that one |
| `AuthenticationInterceptor.Interceptor.Adapt` | SuShare/Pods/Alamofire/Source/AuthenticationInterceptor.swift:251-289 | Queues, answers or starts a refresh as the protocol step says, and keeps all invariants |
| `AuthenticationInterceptor.Interceptor.Retry` | SuShare/Pods/Alamofire/Source/AuthenticationInterceptor.swift:294-318 | Decides outside the lock as the protocol step says, and keeps all invariants |
| `AuthenticationInterceptor.Interceptor.RetryLocked` | SuShare/Pods/Alamofire/Source/AuthenticationInterceptor.swift:320-327 | Queues the retry and starts a refresh unless one is under way, and keeps all invariants |
| `AuthenticationInterceptor.Interceptor.Refresh` | SuShare/Pods/Alamofire/Source/AuthenticationInterceptor.swift:331-352 | Starts exactly one refresh with a new timestamp, or refuses everything queued |
| `AuthenticationInterceptor.Interceptor.IsRefreshExcessive` | SuShare/Pods/Alamofire/Source/AuthenticationInterceptor.swift:354-367 | Counts the timestamps in the window and compares |
| `AuthenticationInterceptor.Interceptor.RefreshCompleted` | SuShare/Pods/Alamofire/Source/AuthenticationInterceptor.swift:341-401 | Ends the refresh and hands both queues to one dispatched block, and keeps all invariants |
| `AuthenticationInterceptor.Interceptor.RunQueue` | SuShare/Pods/Alamofire/Source/AuthenticationInterceptor.swift:380-400 | The dispatched block adapts again, retries or fails its requests one after the other, and keeps all invariants |
| `Multipart.SplitEncoded` | SuShare/Pods/Alamofire/Source/MultipartFormData.swift:320-398 | For any non-empty part list and a boundary without CR, splitting the output of one encoding call at the delimiters of section 5.1.1 of RFC 2046 gives exactly the parts' bytes if and only if the delimiter occurs in none of them |
| `Multipart.DelimiterEndsContent` | SuShare/Pods/Alamofire/Source/MultipartFormData.swift:64-77 | The first delimiter behind a part's start is the one that ends the part, unless one is inside the part |
| `Multipart.EncodedIsFront` | SuShare/Pods/Alamofire/Source/MultipartFormData.swift:320-398 | One call encodes the first part behind the opening boundary, the others behind encapsulated ones, and the closing boundary once |
| `MultipartReader.ContentRead` | SuShare/Pods/Alamofire/Source/MultipartFormData.swift:392-398 | A reader of header lines up to the blank line gets exactly the headers and the body of a part, whatever the body |
| `MultipartReader.BodyRead` | SuShare/Pods/Alamofire/Source/MultipartFormData.swift:320-398 | A receiver that splits the body and reads each part gets the headers and bodies of all parts, in order |
| `MultipartReader.DelimiterBytes` | SuShare/Pods/Alamofire/Source/MultipartFormData.swift:64-77 | Delimiter and close are those of section 5.1.1 of RFC 2046 |
| `MultipartFormData.FormData.Encode` | SuShare/Pods/Alamofire/Source/MultipartFormData.swift:320-390 | However the streams hand out their bytes, returns the encoding of the parts as marked; fails only for an invalid part or a faulty stream |
| `MultipartFormData.FormData.WriteEncodedData` | SuShare/Pods/Alamofire/Source/MultipartFormData.swift:345-371 | However reads and writes are cut into pieces, the output stream receives of each buffer in turn what it had room for; the whole is the in-memory encoding if and only if it never refused; the errors come in the source's order |
| `MultipartFormData.UncutIsWhole` | SuShare/Pods/Alamofire/Source/MultipartFormData.swift:478-501 | Pieces add up to the buffers exactly when none is cut; otherwise bytes are missing |
| `MultipartFormData.HoleIsNoPrefix` | SuShare/Pods/Alamofire/Source/MultipartFormData.swift:488-500 | A cut buffer with another behind it: what arrives is not even what the encoding starts with |
| `MultipartFormData.FormData.EncodeBodyStream` | SuShare/Pods/Alamofire/Source/MultipartFormData.swift:400-423 | Returns the whole content of the stream |
| `MultipartFormData.FormData.WriteBodyStream` | SuShare/Pods/Alamofire/Source/MultipartFormData.swift:444-468 | Passes on the whole content of the stream, buffer by buffer, except for what finds no room |
| `MultipartFormData.FormData.WriteBuffer` | SuShare/Pods/Alamofire/Source/MultipartFormData.swift:478-501 | Adds the buffer to what was to be written, and what it had room for to what was written |
| `MultipartFormData.FormData.WriteLoop` | SuShare/Pods/Alamofire/Source/MultipartFormData.swift:478-501 | Asks for room before each piece; writes the whole buffer, or, when refused once, what was written until then, without an error |
| `TaskMap.RunRefines` | SuShare/Pods/Alamofire/Source/RequestTaskMap.swift:28-141 | From empty, in every run that associates only what is not there and delivers each event at most once per association, nothing crashes, the two maps are inverses, the event table has the same tasks, and the count preconditions hold |
| `TaskMap.StepRefines` | SuShare/Pods/Alamofire/Source/RequestTaskMap.swift:47-141 | One operation on the three dictionaries does what it does on one table of associations; it returns true exactly when a task leaves |
| `TaskMap.LeavesOnSecondEvent` | SuShare/Pods/Alamofire/Source/RequestTaskMap.swift:115-141 | A task stays for the first of its events and leaves on the second, in either order, with the same result |
| `TaskMap.AssociationLasts` | SuShare/Pods/Alamofire/Source/RequestTaskMap.swift:47-141 | From its association on a task stays with its request until one of them is removed or both events have come, and has the events that came |
| `TaskMap.SecondEventRemoves` | SuShare/Pods/Alamofire/Source/RequestTaskMap.swift:115-141 | The second of its events makes it leave |
| `TaskMap.CrashesExactly` | SuShare/Pods/Alamofire/Source/RequestTaskMap.swift:47-141 | An operation crashes exactly when it removes what is not there or delivers an event to an unknown task or twice |
| `TaskMap.AssociateConsistent` | SuShare/Pods/Alamofire/Source/RequestTaskMap.swift:59-61 | Associating a pair keeps the map one to one exactly when neither half is there or the pair itself is |
| `TaskMap.SecondTaskBreaksCount` | SuShare/Pods/Alamofire/Source/RequestTaskMap.swift:89-94 | Giving a request a second task makes the precondition of count fail |
| `RequestTaskMap.TwoWayMap.SetTask` | SuShare/Pods/Alamofire/Source/RequestTaskMap.swift:47-66 | Updates all three dictionaries, or crashes exactly when there is nothing to remove; keeps the association table where it permits the operation |
| `RequestTaskMap.TwoWayMap.SetRequest` | SuShare/Pods/Alamofire/Source/RequestTaskMap.swift:68-87 | The same by task |
| `RequestTaskMap.TwoWayMap.DisassociateIfNecessaryAfterGatheringMetricsForTask` | SuShare/Pods/Alamofire/Source/RequestTaskMap.swift:115-125 | Records the event, removes it on its second, crashes on an unknown task or a duplicate |
| `RequestTaskMap.TwoWayMap.DisassociateIfNecessaryAfterCompletingTask` | SuShare/Pods/Alamofire/Source/RequestTaskMap.swift:127-141 | The same for completion |
| `RequestTaskMap.TwoWayMap.EventCount` | SuShare/Pods/Alamofire/Source/RequestTaskMap.swift:89-100 | Its preconditions fail exactly when the three sizes differ, which a permitted run excludes |
| `StreamCompletion.CompletionsWait` | SuShare/Pods/Alamofire/Source/Request.swift:1286-1305 | Over every interleaving the counter equals the handler runs that have not reported back, events are deferred only while it is positive, and each event is let go at most once, when no run is under way |
| `StreamCompletion.EveryHandlerCompletes` | SuShare/Pods/Alamofire/Source/ResponseSerialization.swift:1048-1058 | Once all events have arrived and nothing is under way, every handler was given its completion exactly once |
| `StreamCompletion.DataReachesHandlers` | SuShare/Pods/Alamofire/Source/Request.swift:1213-1225 | In every state what a handler has handled and what is under way for it is the data received since it was appended, each piece as often |
| `StreamCompletion.EveryHandlerServed` | SuShare/Pods/Alamofire/Source/ResponseSerialization.swift:954-1058 | When all is over every handler has handled every piece received since it was appended exactly once, and has its completion once |
| `StreamCompletion.DataInOrder` | SuShare/Pods/Alamofire/Source/ResponseSerialization.swift:954-1045 | When the queues are serial, it handles them in the order in which they were received |
| `StreamCompletion.AdvancesByOne` | SuShare/Pods/Alamofire/Source/ResponseSerialization.swift:979-1008 | A run passes through the queues of its handler one by one, skipping none |
| `StreamCompletion.CompletionsLastExactly` | SuShare/Pods/Alamofire/Source/Request.swift:1213-1225 | From the moment a completion is let go no handler is at work or about to be, throughout a run, if and only if no data arrives from that moment on |
| `StreamCompletion.DataFirstCompletesLast` | SuShare/Pods/Alamofire/Source/Request.swift:1286-1305 | When all data comes before the first completion event, the completion is the last thing that handlers see, in every state of every such run |
| `StreamCompletion.LateData` | SuShare/Pods/Alamofire/Source/Request.swift:1213-1225 | A run with data behind a completion event in which a handler is at work after it was given its completion |
| `StreamCompletion.StepConserves` | SuShare/Pods/Alamofire/Source/Request.swift:1213-1225 | No step loses or duplicates a completion event |
| `RequestTaskMap.TwoWayMap.IsEventsEmpty` | SuShare/Pods/Alamofire/Source/RequestTaskMap.swift:102-113 | Its preconditions fail exactly when the three dictionaries are not all empty or all non-empty, which a permitted run excludes; it then tells whether nothing is associated |
| `DataStreamRequest.StreamRequest.ResponseStream` | SuShare/Pods/Alamofire/Source/ResponseSerialization.swift:954-968 | Adds a handler whose completion event is to come, and keeps the invariants |
| `DataStreamRequest.StreamRequest.DidReceive` | SuShare/Pods/Alamofire/Source/Request.swift:1213-1225 | Counts one run per handler and schedules them, and keeps the invariants |
| `DataStreamRequest.StreamRequest.StreamCompletes` | SuShare/Pods/Alamofire/Source/Request.swift:1286-1305 | Lets the event go at zero and defers it otherwise, and keeps the invariants |
| `DataStreamRequest.StreamRequest.UpdateAndCompleteIfPossible` | SuShare/Pods/Alamofire/Source/ResponseSerialization.swift:1048-1058 | Counts down, and at zero hands all deferred events to one block, and keeps the invariants |

## Left out

- PbDecode: after a failure the error is stated, but nothing about the struct, which the source leaves half filled.
- PbDecodeNoInit: after a failure nothing is said about the struct.
- PbDecodeFields: after a failure nothing is said about the struct.
- PbDecodeBody: after a failure nothing is said about the struct.
- PbDecodeDelimited: after a failure nothing is said about the struct.
- PbDecodeStaticField: after a failure nothing is said about the slot; on success exactly one slot changes.
- PbDecPacked: after a failure nothing is said about the items stored before.
- PbDecSubmessage: nested structs are copied in and out rather than updated in place, so aliasing between a struct and its parts is not captured.
- PointerIdentifiesSlot: is for tables whose fields take room in the struct; C has no members of size zero and no arrays of length zero.
- EndToEnd.Parse: takes the encoded message as a ghost argument; it is a client of the codec, not a routine of it.
- Message types that contain themselves: a static struct cannot, and the descriptor datatype cannot either.
- nanopb callbacks, custom streams and extensions: foreign code.
- nanopb pointer fields and pb_release (`PB_ENABLE_MALLOC`): they need a heap model.
- nanopb fixed-count arrays, `PB_WITHOUT_64BIT`, `PB_BUFFER_ONLY` and `PB_OLD_CALLBACK_STYLE`: other build variants.
- pb_decode_noinit into a struct whose oneof selector names no field: an error only in the malloc build.
- Null submessage pointers in a table, and struct alignment and padding.
- String buffers behind the terminator: a slot holds what was written, not the old bytes after it.
- Varints of more than ten bytes in the 32-bit reader: modelled, wrapping bit position included, but not compared with the 64-bit reader, which refuses them.
- AuthenticationInterceptor: at most one refresh per credential is not claimed, since a retry reads the credential before it takes the lock. An authenticator that answers within refresh would deadlock and is not modelled.
- MultipartFormData: file checks, MIME types and the construction of header values; a part list in which two parts share one input stream.
- RequestTaskMap on watchOS, where completion alone removes a task.
- DataStreamRequest: bound streams, cancellation and errors thrown by handlers.
- Alamofire's request pipeline, interceptor chains, retry policies, header and parameter types, and everything in `SuShare/SuShare` and `SuShare/functions`: thin, delegated, or easy.
