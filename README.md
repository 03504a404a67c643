# Binary wire values, the generic map and the polymorphic envelope

This project models the serialisation core of a Rust messaging library. Values are written to,
and read back from, a byte stream through one contract: write_to, extract_from, copy and
equals. The model covers the concrete values that follow the contract:

- a boolean;
- a process identifier, 4 or 8 bytes wide depending on the stream;
- a class-version container;
- a generic count-prefixed map;
- an "any-holder" envelope. The envelope writes an object it only knows through the contract as
  `[identifier][u32 frame length = payload length + 4][payload]`. It reads one back by looking
  the identifier up in a registry of prototypes, decoding into a clone of the prototype, and
  swapping the clone in only when the decode succeeded.

The modules follow the source files:

| module | file | models |
|---|---|---|
| `Wire` | `wire.dfy` | the reader and writer: a `Writer` class over a byte buffer, with `copy_new`; a `Reader` class over fixed data and a position; little-endian fixed-width integers and booleans, with their round trips |
| `Strings` | `strings.dfy` | the length-prefixed string codec, used for envelope identifiers and for string map keys |
| `Values` | `values.dfy` | the values behind the contract, standing in for `as_any` downcasts |
| `BoolType` | `bool.dfy` | `Bool` |
| `PidType` | `pid.dfy` | `PID` |
| `Maps` | `map.dfy` | `Map<K, V>`, generic over key and value codecs |
| `ClassVersions` | `class_version_container.dfy` | `ClassVersionContainer` |
| `Holdable` | `holdable.dfy` | a boxed trait object (`Obj`), and dispatch of the contract to the concrete type behind it |
| `AnyHolder` | `any_object_holder.dfy` | the registry, the envelope and the placeholder object |

Encoders are pure functions that return `Emitted`, which is either:

- `Done(bytes)`, or
- `Aborted(err, bytes written before the failure)`.

Decoders are pure functions that return `Parse`, which is either:

- `Parsed(value, used)`, or
- `Failed(err, used)`.

Each method that writes to a `Writer` or reads from a `Reader` is proved against these
functions:

- the bytes it appends, or the position it advances to;
- its result;
- the new state of its object.

The round trips and the other properties are then proved about the functions.

A `HashMap`'s iteration order is not specified. `Maps.Map.IterationOrder` therefore picks the
keys in an arbitrary order. The write methods return that order as a ghost result, and
`EncodeMap` takes the order as a parameter. The map round trip is proved for every order.

Two points where the model departs from the code as written:

- **The frame-length fields.** `write_to` writes one u32 frame length after the identifier,
  so `extract_from` should read one. It reads two. The model's `AnyHolder.DecodeEnvelope`
  reads the single field the encoder writes. The code as written is
  `AnyHolder.DecodeEnvelopeAsWritten`; see "Findings".
- **Validating the frame length.** A frame length that does not match the bytes available is
  never rejected: the code reads the field and ignores it. The model does the same.

## Model

| member | source | states |
|---|---|---|
| Wire.ParseFixed | types/readable.rs:14-15 | a fixed-width little-endian read succeeds exactly when n bytes remain; it then consumes n bytes, and its value re-encodes to those bytes; otherwise it fails and consumes nothing |
| Wire.FromLEOfLE | types/writable.rs:10-11 | reading back the little-endian bytes of x gives x, whenever x fits the width |
| Wire.LEOfFromLE | types/readable.rs:14-15 | every run of bytes is the little-endian encoding of the number it reads as |
| Wire.FixedRoundTrip | types/readable.rs:14-15 | a fixed-width read of what the writer wrote gives the number back, whatever follows it |
| Wire.ParseU32 | types/readable.rs:14 | read_u32_le never consumes more than it is given |
| Wire.ParseU64 | types/readable.rs:15 | read_u64_le never consumes more than it is given |
| Wire.ParseBool | types/readable.rs:25 | read_bool never consumes more than it is given |
| Wire.BytesRoundTrip | types/readable.rs:10 | read(n) (`ParseBytes`) just after write of n bytes gives those bytes back and consumes exactly them, whatever follows |
| Wire.Writer.constructor | types/writable.rs:2-4 | a new writer is empty and carries its configuration |
| Wire.Writer.CopyNew | types/writable.rs:5 | copy_new returns a fresh, empty writer with the same configuration |
| Wire.Writer.Write | types/writable.rs:7 | write appends the bytes verbatim |
| Wire.Writer.WriteU32 | types/writable.rs:10 | appends exactly the 4 little-endian bytes of the value |
| Wire.Writer.WriteU64 | types/writable.rs:11 | appends exactly the 8 little-endian bytes of the value |
| Wire.Writer.WriteBool | types/writable.rs:21 | appends exactly the one byte of the boolean |
| Wire.Reader.constructor | types/readable.rs:4-6 | a new reader is at the start of its data and carries its configuration |
| Wire.Reader.Decode | types/readable.rs:10-25 | every read advances by what its decoder consumes, returns the decoder's result, and stays within the data |
| Wire.Reader.Read | types/readable.rs:10 | advances by what read(n) consumes and returns its result; the reader stays within its data |
| Wire.Reader.ReadFixed | types/readable.rs:14-15 | advances by what a fixed-width read consumes and returns its result |
| Wire.Reader.ReadU32 | types/readable.rs:14 | advances by what the u32 read consumes and returns its result |
| Wire.Reader.ReadU64 | types/readable.rs:15 | advances by what the u64 read consumes and returns its result |
| Wire.Reader.ReadBool | types/readable.rs:25 | advances by what the boolean read consumes and returns its result |
| Strings.EncodeString | types/any_object_holder.rs:43 | writing an identifier succeeds exactly when its length fits the string-length prefix; it writes the prefix, whose value is the length, then the bytes; a string that is too long writes nothing |
| Strings.DecodeString | types/any_object_holder.rs:125-129 | a decoded identifier's length is the value of its prefix, and its bytes are the ones that follow the prefix |
| Strings.StringRoundTrip | types/any_object_holder.rs:125-129 | reading an identifier back from its encoding gives it back, and consumes exactly the prefix and the bytes |
| Strings.IdentCodec | types/class_version_container.rs:4 | the string codec, as a map key codec, round-trips and never reads past its input |
| Strings.WriteString | types/any_object_holder.rs:43 | appends exactly the identifier's encoding and returns its outcome |
| Strings.ReadString | types/any_object_holder.rs:52 | advances by what the identifier decode consumes and returns its result |
| BoolType.RoundTrip | types/bool.rs:25-34 | reading a boolean back from its write_bool byte (`BoolBytes`) gives it back, consuming one byte |
| BoolType.EqualsAfterRoundTrip | types/bool.rs:40-42 | a Bool equals the Bool read back from its own byte, and never the Bool holding the opposite value |
| BoolType.Bool.New | types/bool.rs:19-21 | new(b) holds b |
| BoolType.Bool.Copy | types/bool.rs:36-50 | copy (and copy_ref and deref, which call it) returns a fresh Bool holding the same value |
| BoolType.Bool.WriteTo | types/bool.rs:25-28 | appends exactly the one write_bool byte and never fails |
| BoolType.Bool.ExtractFrom | types/bool.rs:30-34 | stores the boolean read; a failed read leaves the value unchanged; the reader advances by what was consumed |
| BoolType.WriteThenExtract | types/bool.rs:25-34 | a Bool written and then extracted into a Bool that held the opposite value ends up with the original value |
| PidType.Encode | types/pid.rs:14-21 | the encoding is `Width` bytes: 8 when pid_size is 8, and 4 for any other width |
| PidType.Decode | types/pid.rs:23-30 | the read succeeds exactly when the width's bytes remain and consumes exactly them; a 4-byte read is zero-extended, so it is below 2^32; a failure consumes nothing |
| PidType.RoundTrip | types/pid.rs:14-30 | decoding the encoding gives the number back under width 8, and the number mod 2^32 under any other width |
| PidType.RoundTripExact | types/pid.rs:14-30 | the round trip is exact if and only if the width is 8 or the number is below 2^32 |
| PidType.EqualsAfterRoundTrip | types/pid.rs:36-38 | a PID always reads back from its own encoding, and equals what was read exactly when the width is 8 or the number fits in 32 bits |
| PidType.PID.New | types/pid.rs:8-10 | new(n) holds n |
| PidType.PID.Copy | types/pid.rs:32-34 | copy returns a fresh PID holding the same value |
| PidType.PID.WriteTo | types/pid.rs:14-21 | appends exactly the encoding for the writer's pid_size and never fails |
| PidType.PID.ExtractFrom | types/pid.rs:23-30 | stores the number read at the reader's width; a failed read leaves the value unchanged |
| Maps.EncodeMap | types/map.rs:43-52 | write_to's output starts with the entry count as a little-endian u32, truncated to 32 bits |
| Maps.EncodeMapParts | types/map.rs:43-52 | the encoding is the count followed by every entry's key and value encodings, in the iteration order; the outcome is that of the entries |
| Maps.EncodePairsAppend | types/map.rs:46-49 | the write loop's output (`EncodePairs`) for two runs of entries is the first run's, then the second's if the first succeeded |
| Maps.EncodePairsAt | types/map.rs:46-49 | once the first i entries are written, entry i either stops the write with its partial bytes or extends the written run by its encoding |
| Maps.InsertAll | types/map.rs:66 | inserting pairs one by one keeps every earlier key, and adds at most one key per pair |
| Maps.DecodePair | types/map.rs:60-64 | an entry is a key, then a value read from where the key ended; the read never goes past its input |
| Maps.DecodeEntries | types/map.rs:58-67 | reading n entries never goes past its input, and adds at most n keys |
| Maps.DecodeMap | types/map.rs:54-70 | a decoded table has at most as many entries as the count read |
| Maps.DecodeEntriesNext | types/map.rs:58-67 | one turn of the loop: a failed entry fails the whole read after the bytes it consumed; otherwise the entry is inserted and the rest is read after it |
| Maps.PairRoundTrip | types/map.rs:46-66 | an entry's encoding (`EncodePair`, the key's then the value's) decodes back to the entry when both codecs round-trip, and consumes exactly that encoding |
| Maps.DecodeEncodedPairs | types/map.rs:46-67 | decoding the encodings of a run of pairs inserts exactly those pairs, in order, and consumes exactly their encoding |
| Maps.InsertAllEntries | types/map.rs:66 | inserting a table's entries in a key order overwrites exactly the listed keys, each with its value in the table, and leaves every other key as it was |
| Maps.RebuildFromEntries | types/map.rs:56-69 | inserting a table's entries (`Entries`, each key of the enumeration with its value) into an empty table, in any enumeration of its keys, rebuilds the table |
| Maps.DecodeMapHeader | types/map.rs:55 | a table's decode is its u32 count, then that many entries read into an empty table |
| Maps.MapRoundTrip | types/map.rs:43-70 | for every iteration order write_to may take, decoding its output restores the table and consumes exactly the encoding |
| Maps.InsertAllLastWins | types/map.rs:66 | with a repeated key, the table keeps the value of the key's last pair |
| Maps.InsertAllKeepsAbsent | types/map.rs:66 | a key that no pair mentions keeps its earlier value |
| Maps.EqualsIsEquality | types/map.rs:77-91 | when the value comparison is equality, equals holds if and only if the tables are equal |
| Maps.EqualsIgnoresInsertionOrder | types/map.rs:77-91 | inserting two distinct keys in either order gives tables that compare equal |
| Maps.EqualsOtherTypeIsFalse | types/map.rs:78-79 | a value that is not a table of this type compares unequal, without failing |
| Maps.WritePair | types/map.rs:47-48 | appends the key's encoding, then the value's if the key succeeded, and returns their outcome |
| Maps.WritePairs | types/map.rs:46-49 | the write loop appends exactly the encoding of the entries in order, stopping at the first failure, and returns its outcome |
| Maps.ReadPair | types/map.rs:60-64 | advances by what the entry decode consumes and returns its result |
| Maps.ReadEntries | types/map.rs:56-67 | the read loop advances by what reading n entries consumes and returns that table or its error |
| Maps.Map.constructor | types/map.rs:19-23 | new() is empty |
| Maps.Map.Insert | types/map.rs:25-27 | k maps to v afterwards; every other key is unchanged; the size grows by at most one |
| Maps.Map.IsEmpty | types/map.rs:29-35 | is_empty holds exactly when len() is 0, that is, when the table has no entries |
| Maps.Map.IterationOrder | types/map.rs:46 | the iteration lists every key of the table exactly once |
| Maps.Map.WriteTo | types/map.rs:43-52 | appends exactly the table's encoding in an order that enumerates its keys, and returns its outcome |
| Maps.Map.ExtractFrom | types/map.rs:54-70 | advances by what the decode consumes; the table is replaced by the decoded one only when every entry was read, and is unchanged otherwise |
| Maps.Map.Copy | types/map.rs:73-75 | copy returns a fresh table with the same entries |
| ClassVersions.DecodeVersions | types/class_version_container.rs:33-35 | reading a version table never consumes more than it is given |
| ClassVersions.DecodeU16 | types/readable.rs:13 | a u16 read never consumes more than it is given |
| ClassVersions.U16Codec | types/class_version_container.rs:4 | the version values' codec (`EncodeU16`, two little-endian bytes) round-trips and never reads past its input |
| ClassVersions.VersionsRoundTrip | types/class_version_container.rs:29-35 | a version table decodes back from its own encoding (`EncodeVersions`, the table write) in any iteration order |
| ClassVersions.EqualsIgnoresStructureVersion | types/class_version_container.rs:41-44 | equals holds if and only if the other value is a container with the same table; containers that differ only in their structure version compare equal |
| ClassVersions.Tabs | types/class_version_container.rs:16-17 | the indentation for n is n tab characters |
| ClassVersions.Decimal | types/class_version_container.rs:21 | the structure version is rendered as at least one decimal digit |
| ClassVersions.DecimalRoundTrip | types/class_version_container.rs:21 | the rendered digits denote the number |
| ClassVersions.FormattedOpens | types/class_version_container.rs:20 | the text opens with the type name and an opening brace on its own line |
| ClassVersions.FormattedCloses | types/class_version_container.rs:23 | the text closes with the enclosing level's tabs and a closing brace |
| ClassVersions.StructureVersionReadable | types/class_version_container.rs:21 | the structure version can be read back from its line |
| ClassVersions.ClassVersionContainer.New | types/class_version_container.rs:8-13 | new() has structure version 0 and an empty, fresh table |
| ClassVersions.ClassVersionContainer.FormatToString | types/class_version_container.rs:15-25 | the text built line by line is the container's rendering `Formatted` at the given level, whose opening, closing and structure-version line FormattedOpens, FormattedCloses and StructureVersionReadable describe |
| ClassVersions.ClassVersionContainer.WriteTo | types/class_version_container.rs:29-31 | appends exactly the table's encoding; the structure version is not written |
| ClassVersions.ClassVersionContainer.ExtractFrom | types/class_version_container.rs:33-35 | only the table changes, and only when the whole table was read; the structure version stays |
| ClassVersions.ClassVersionContainer.Copy | types/class_version_container.rs:37-39 | copy returns a fresh container with the same structure version and a fresh, equal table |
| Holdable.EncodeValue | types/any_object_holder.rs:38 | write_to dispatched to the held type: only a container's write can fail; a boolean is one byte, a PID as wide as the stream's PID width, a container at least its four-byte count; ValueRoundTrip gives its contents |
| Holdable.DecodeValue | types/any_object_holder.rs:61-62 | extracting into a clone of a prototype gives a value of the prototype's type; a container keeps the prototype's structure version; the placeholder reads nothing |
| Holdable.EqualsAcrossTypes | types/bool.rs:40-42 | equals dispatched to the receiver's type (`ValueEquals`): a comparison with a value of another type is false, not an error; otherwise equals is equality (for containers, equality of the tables) |
| Holdable.EqualsReflexive | types/pid.rs:36-38 | every value equals itself |
| Holdable.EqualsSymmetric | types/class_version_container.rs:41-44 | between values other than the placeholder, equals is symmetric |
| Holdable.Restored | types/pid.rs:23-30 | what a round trip restores has the original's type |
| Holdable.RestoredEquals | types/pid.rs:36-38 | the restored value equals the original unless identifier bits above 32 were dropped |
| Holdable.ValueRoundTrip | types/bool.rs:5-13 | every value decodes back from its own encoding, through a prototype of its type, and consumes exactly that encoding |
| Holdable.WriteObj | types/any_object_holder.rs:38 | the held object's write_to appends exactly its value's encoding and returns its outcome |
| Holdable.ExtractObj | types/any_object_holder.rs:62 | the object's value becomes the decoded one on success and stays as it was on failure |
| Holdable.NewObj | types/any_object_holder.rs:61 | copy_ref of a prototype is a fresh object denoting the prototype's value |
| Holdable.CopyObj | types/any_object_holder.rs:73 | copying a held object gives a fresh object denoting the same value |
| AnyHolder.TypeName | types/any_object_holder.rs:22 | every identifier is non-empty and fits a one-byte string-length prefix |
| AnyHolder.TypeNameIdentifiesKind | types/any_object_holder.rs:22 | two values have the same identifier (`TypeName`) if and only if they have the same type, so a registered identifier names one type |
| AnyHolder.IdentifierReadsBack | types/any_object_holder.rs:43 | writing the held object's identifier (`IdentifierBytes`) succeeds exactly when it is the placeholder's or the string-length prefix has at least one byte; for every type but the placeholder it reads back as the type's name, consuming exactly what was written |
| AnyHolder.FrameField | types/any_object_holder.rs:41 | the frame-length field is four bytes |
| AnyHolder.FrameLength | types/any_object_holder.rs:41 | the frame-length field reads back as the payload length plus four whenever that fits a u32 |
| AnyHolder.EncodeEnvelope | types/any_object_holder.rs:35-48 | write_to succeeds exactly when the identifier and the payload both do; a failed write appends nothing; a written envelope is as long as the identifier plus four plus the payload |
| AnyHolder.FrameLayout | types/any_object_holder.rs:38-45 | framing (`Frame`): a failed payload leaves nothing; otherwise the envelope is the identifier, then the frame length, then the payload verbatim, and it succeeds exactly when both parts do |
| AnyHolder.FrameAppend | types/any_object_holder.rs:43-45 | a written envelope followed by more bytes splits into identifier, frame length, and payload plus the rest; its length is the identifier's, plus four, plus the payload's |
| AnyHolder.IdentifierAtomic | types/any_object_holder.rs:43 | writing an identifier either succeeds or writes nothing |
| AnyHolder.DecodeEnvelope | types/any_object_holder.rs:50-69 | a decode succeeds only when an identifier was read and is registered, and the value then has the type of that identifier's prototype; the decode never reads past its input |
| AnyHolder.UnknownIdentifierFails | types/any_object_holder.rs:60-67 | an identifier with no registered prototype fails the decode; once the four frame-length bytes are there, with UnknownIdentifier naming it, after the identifier and those four bytes |
| AnyHolder.DecodeEnvelopeAsWritten | types/any_object_holder.rs:50-69 | the decoder as written never reads past its input |
| AnyHolder.DecodeEnvelopeFront | types/any_object_holder.rs:52-62 | after a registered identifier and a frame length, the decode is the prototype's decode of the bytes that follow |
| AnyHolder.DecodeAfterIdentifier | types/any_object_holder.rs:54-62 | once the identifier is read, one u32 is skipped and the prototype decodes the rest |
| AnyHolder.EnvelopeBytes | types/any_object_holder.rs:40-45 | a written envelope, other than the placeholder's, is the encoded type name, the frame length and the payload |
| AnyHolder.EnvelopeRoundTrip | types/any_object_holder.rs:35-65 | decoding a registered value's envelope gives the value back, up to Restored against its prototype, and consumes exactly the envelope; the result equals the original unless identifier bits were dropped |
| AnyHolder.EnvelopeDecodes | types/any_object_holder.rs:35-65 | the round trip on an envelope's bytes alone |
| AnyHolder.AsWrittenFront | types/any_object_holder.rs:54-56 | the decoder as written takes the first four payload bytes for a second length; it fails when fewer follow, and otherwise decodes from four bytes too far on |
| AnyHolder.AsWrittenAfterIdentifier | types/any_object_holder.rs:54-56 | the same, once the identifier is read |
| AnyHolder.BoolIdentifierBytes | types/any_object_holder.rs:43 | the identifier of Bool under a two-byte prefix is `04 00 'B' 'o' 'o' 'l'` |
| AnyHolder.BoolEnvelopeBytes | types/any_object_holder.rs:35-48 | the envelope of Bool(true) is `04 00 'B' 'o' 'o' 'l' 05 00 00 00 01` |
| AnyHolder.BoolEnvelopeDecodes | types/any_object_holder.rs:50-65 | those bytes decode back to Bool(true), consuming all 11 |
| AnyHolder.AsWrittenRejectsOwnEnvelope | types/any_object_holder.rs:54-56 | the decoder as written fails on those bytes: its second u32 read finds one byte |
| AnyHolder.PlaceholderEnvelopeUnreadable | types/any_object_holder.rs:91-112 | for every string-length prefix width of at least one byte, the placeholder's envelope is just the frame length `04 00 00 00`, and those four bytes on their own fail to decode: with a prefix of at most four bytes they announce a four-byte identifier that is missing, with a wider prefix the prefix itself is short |
| AnyHolder.PlaceholderMisreadsFollowing | types/any_object_holder.rs:91-112 | under a four-byte string-length prefix, the placeholder's envelope followed by more bytes is read as the length of an identifier made of the next four bytes, so the stream after a placeholder is misread |
| AnyHolder.PlaceholderIsEmpty | types/any_object_holder.rs:97-111 | the placeholder writes no identifier and no payload, reads nothing, and equals everything |
| AnyHolder.PlaceholderEqualsOneWay | types/any_object_holder.rs:101 | the placeholder equals every value, but no other value equals the placeholder |
| AnyHolder.WriteIdentifier | types/any_object_holder.rs:43 | appends exactly the held object's identifier and returns its outcome |
| AnyHolder.WriteLengthAndPayload | types/any_object_holder.rs:44-45 | appends the frame-length field and then the payload |
| AnyHolder.WriteFrame | types/any_object_holder.rs:38-47 | given the payload's outcome, appends exactly the framed envelope, or nothing when the payload failed |
| AnyHolder.ReadHeader | types/any_object_holder.rs:52-60 | reading the identifier and frame length, then looking the identifier up, either fails the envelope decode with that error or leaves the prototype's decode of the rest |
| AnyHolder.Registry.constructor | types/any_object_holder.rs:16-17 | the registry starts empty |
| AnyHolder.Registry.Register | types/any_object_holder.rs:20-23 | the prototype is stored under its identifier, replacing any earlier entry there; every other entry is unchanged |
| AnyHolder.AnyObjectHolder.constructor | types/any_object_holder.rs:30-33 | a new holder holds the placeholder |
| AnyHolder.AnyObjectHolder.WriteTo | types/any_object_holder.rs:35-48 | appends exactly the envelope of the held value and returns its outcome; the payload is taken from the scratch writer's bytes (`Writer.Bytes`); nothing is appended when the payload fails |
| AnyHolder.AnyObjectHolder.ExtractFrom | types/any_object_holder.rs:50-69 | advances by what the envelope decode consumes; an identifier read but not registered makes it fail; on success the held object is a fresh clone holding the decoded value; on failure (unknown identifier, or a failed read) the held object is unchanged |
| AnyHolder.AnyObjectHolder.Copy | types/any_object_holder.rs:71-75 | copy holds a fresh copy of the held object |
| AnyHolder.Transfer | types/any_object_holder.rs:35-69 | a registered holder written to an empty stream always extracts from those bytes, and the target then holds the restored value |

## Left out

- The `Display` and `Debug` impls are left out.
  - The map's rendering, and through it the container's, depends on `HashMap` iteration order. `ClassVersions.ClassVersionContainer.FormatToString` therefore takes the table's rendering as a parameter.
  - The `Bool` and `PID` impls are plain formatting of the value.
  - The placeholder's text "DummyHoldableObject" is modelled only as its identifier: `AnyHolder.TypeName` of the placeholder, the key `register` would file it under.
- The `Mutex` and `lazy_static` around the registry are left out because they are concurrency plumbing. The registry is an explicit `AnyHolder.Registry` object, which extraction reads.
- `as_any` downcasting is not modelled. The constructors of `Values.Value` stand in for the concrete types.
- Several reader and writer primitives are left out because nothing here uses them: floating-point reads and writes, signed integers, single bytes, `remaining` and `read_remaining`. A reader is a fixed byte sequence with a position. A read that runs past the end fails with `ShortRead` and consumes nothing.
- The identifier reader is unimplemented in the source. The model uses a little-endian length prefix `string_length_size` bytes wide, followed by the bytes.
- Identifiers are byte strings; UTF-8 is not modelled.
- A string too long for its prefix fails to write and writes nothing. This choice is the model's own.
- The `HoldableObject` impls of `Bool`, `PID` and `ClassVersionContainer` are not part of this model. Their identifiers are taken to be their type names ("Bool", "PID", "ClassVersionContainer"). The placeholder's identifier is the placeholder itself.
- The `RVType` impl of `u16` is not part of this model. Version numbers are written as two little-endian bytes.
- `write_bool` and `read_bool` are declared without a body, so their encoding is the model's choice. `write_bool` writes one byte, 1 for true and 0 for false. `read_bool` reads one byte, any non-zero value reading as true.
- The `Default` impls for `String` and `u16` are not modelled. Decoders are functions that produce values, so no default decode target is needed.
- `HashMap::with_capacity` is left out. The source reserves room for the announced count (up to 2^32 - 1, taken from the stream) before reading any entry, so a hostile count can make that allocation fail and abort the process. The model has no memory limit: such a stream fails with `ShortRead` once the entries run out.
- Maps.Map.Len has no row of its own. It is the table's size; `Maps.Map.IsEmpty` and `Maps.Map.Insert` state its properties.
- Maps.Equals takes the value comparison as a parameter, because the values' own `equals` is generic. ClassVersions.Equals compares the version tables for equality.
- AnyHolder.AnyObjectHolder.Equals only delegates to the held object's comparison, which `Holdable.EqualsAcrossTypes` and `AnyHolder.PlaceholderEqualsOneWay` describe.
- AnyHolder.DecodeEnvelope does not check the frame length against the bytes available. The code reads the field and ignores it.
- Maps.MapRoundTrip is proved only for tables of fewer than 2^32 entries. Beyond that the u32 count is truncated and the round trip fails.
- AnyHolder.EnvelopeRoundTrip is likewise proved only for tables of fewer than 2^32 entries.
- AnyHolder.PlaceholderEnvelopeUnreadable is stated for string-length prefixes of at least one byte, the only widths a stream offers (2 or 4). With a zero-width prefix the four bytes would read as an empty identifier and a frame length.
- AnyHolder.EnvelopeRoundTrip excludes the placeholder. It writes no identifier, so its envelope cannot be read back; `AnyHolder.PlaceholderEnvelopeUnreadable` shows this.
- AnyHolder.FrameLength holds only when the payload length plus four fits a u32. A longer payload's length field is truncated, as the cast to u32 truncates.
- Memory sharing between a prototype and its clone is not modelled. Prototypes are stored as values, so extraction cannot change them.

## Findings

| source | as written | input that shows it | evidently intended | confidence | as-written member | corrected member |
|---|---|---|---|---|---|---|
| types/any_object_holder.rs:54-56 | `extract_from` reads a second u32 ("buffer length") after the frame length, but `write_to` (types/any_object_holder.rs:44) writes only one | the envelope of Bool(true) with a two-byte string prefix, `04 00 42 6f 6f 6c 05 00 00 00 01`: the second u32 read finds a single byte and the decode fails with a short read | a single frame-length field, as the encoder writes; the payload follows it directly | high, not executed | AnyHolder.AsWrittenRejectsOwnEnvelope | AnyHolder.EnvelopeRoundTrip |
