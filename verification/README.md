# cbor-sync integer core, modelled in Dafny

cbor-sync is a synchronous CBOR codec (RFC 8949) for Node. Its implemented part is
the integer slice of the format. This project models that slice and proves
properties of it:

- **Header codec** (`Headers`). `writeHeader` packs a major type (top 3 bits) and
  additional information (low 5 bits) into the initial byte. It stores magnitudes
  0-23 inline and otherwise picks the shortest 1-, 2-, 4- or 8-byte big-endian
  argument (additional information 24-27). `readHeader` splits the initial byte
  again. It reads the argument, returns no value for additional information 31
  (indefinite length), and throws for 28-30.
- **Byte streams** (`Reading`, `Writing`). The default `Reader` composition builds
  16/32/64-bit reads from `readByte`. `BufferReader` overrides the 16- and 32-bit
  reads. The default `Writer` composition builds 16/32/64-bit writes from `writeByte`.
- **StreamWriter** (`Streams`). Output collects in 16 KiB segments, and `result()`
  joins them.
- **Integer codec and entry points** (`Codec`). Non-negative n is written as
  header (0, n), negative n as header (1, -1 - n). The infinities pass the
  source's integer test too: they are written with additional info 27 and eight
  zero bytes, so they decode to 0 and -1. `encode` runs a fresh StreamWriter and
  `decode` runs a fresh BufferReader.
- **Semantic tag registry** (`Tags`). `addSemanticEncode` appends, and
  `addSemanticDecode` overwrites. Both validate the tag. In a chain of calls, a
  throw keeps the registrations committed before it.

Bytes are the subset type `byte` (0..255). Magnitudes are unbounded naturals, and
every operation is a pure function over sequences. A StreamWriter is an immutable
datatype. `Streams.Contents` is the abstraction function for it, and
`Streams.Valid` is its invariant. A Node Buffer keeps only the low 8 bits of a
number stored into it (`Bytes.Store`). Because of that, `writeUint16/32/64` emit
the low 2/4/8 bytes of their argument. So a magnitude of 2^64 or more is written
modulo 2^64, and the model states that wrap-around explicitly (`Codec.Wrap64`).
`Bytes.BeValue` is the reference big-endian reading that the reads and writes are
proved against.

## Model

| member | source | states |
|---|---|---|
| Reading.PeekByte | main.js:50-52 | the byte at the cursor; fails when the buffer is exhausted |
| Reading.ReadByte | main.js:53-55 | the byte at the cursor, agreeing with peekByte, and the cursor advanced by one; fails at the end of the buffer |
| Reading.ReadChunk | main.js:66-70 | exactly n bytes, which are the buffer's bytes at the cursor (the buffer is prefix ++ chunk ++ rest), and the cursor advanced by n; fails when fewer than n remain |
| Reading.DefaultReadUint16 | main.js:15-17 | two byte reads compose to the big-endian value of the next 2 bytes, advancing by 2; fails iff fewer than 2 remain |
| Reading.DefaultReadUint32 | main.js:18-20 | two 16-bit reads compose to the big-endian value of the next 4 bytes, advancing by 4; fails iff fewer than 4 remain |
| Reading.DefaultReadUint64 | main.js:21-23 | two 32-bit reads compose to the big-endian value of the next 8 bytes, advancing by 8; fails iff fewer than 8 remain |
| Reading.ReadUint16 | main.js:56-60 | BufferReader's direct read agrees with the default composition, value and cursor alike |
| Reading.ReadUint32 | main.js:61-65 | BufferReader's direct read agrees with the default composition, value and cursor alike |
| Reading.ReadUint64 | main.js:21-23 | the inherited composition over BufferReader's 32-bit reads agrees with the byte-wise default |
| Writing.WriteUint16 | main.js:31-34 | emits 2 bytes whose big-endian value is v mod 2^16 |
| Writing.WriteUint32 | main.js:35-38 | emits 4 bytes whose big-endian value is v mod 2^32 |
| Writing.WriteUint64 | main.js:39-42 | emits 8 bytes whose big-endian value is v mod 2^64 |
| Writing.WriteReadUint16 | main.js:31-34 | writeUint16 followed by BufferReader.readUint16 yields v mod 2^16 and advances by 2, anywhere in a buffer |
| Writing.WriteReadUint32 | main.js:35-38 | writeUint32 followed by readUint32 yields v mod 2^32 and advances by 4 |
| Writing.WriteReadUint64 | main.js:39-42 | writeUint64 followed by readUint64 yields v mod 2^64 and advances by 8 |
| Streams.New | main.js:72-78 | a new writer satisfies the invariant and holds no bytes |
| Streams.WriteByte | main.js:80-88 | keeps the invariant (offset inside the segment, byteLength = bytes held) and appends exactly the byte |
| Streams.WriteChunk | main.js:89-108 | on every branch (empty segment, chunk fits, chunk overflows) keeps the invariant and appends exactly the chunk |
| Streams.CopyChunk | main.js:93-101 | a chunk that fits in a partly filled segment is copied in at the offset, the segment completing when it fills; the invariant holds and exactly the chunk is appended |
| Streams.Result | main.js:109-122 | result() returns exactly the bytes held, in order, and its length is byteLength |
| Streams.Run | main.js:80-108 | any interleaving of writeByte/writeChunk calls keeps the invariant and appends exactly the written history |
| Streams.Apply | main.js:80-108 | one writeByte or writeChunk call keeps the invariant and appends exactly the bytes it was handed |
| Streams.HistoryBytewise | main.js:80-88 | the history of one writeByte call per byte of s is s |
| Streams.ChunkingInvariance | main.js:89-108 | writing s byte by byte and writing it as one chunk leave identical contents, namely s |
| Streams.WriteByteAsWritten | main.js:80-88 | as written, writeByte throws ReferenceError exactly when the segment fills, and otherwise agrees with WriteByte |
| Streams.WriteChunkAsWritten | main.js:89-108 | as written, writeChunk throws ReferenceError exactly when a copied chunk fills a non-empty segment, and otherwise agrees with WriteChunk |
| Streams.RunAsWritten | main.js:80-108 | as written, a run of calls throws ReferenceError exactly when one of them reaches the end of the current segment, and otherwise ends in the same state as the intended run |
| Streams.ByteFillAsWritten | main.js:82-86 | as written, any run of writeByte calls that reaches the end of the current segment throws |
| Streams.SegmentFillAsWritten | main.js:83 | as written, 16384 writeByte calls on a new writer throw, while the intended writer holds all 16384 bytes |
| Streams.ChunkFillAsWritten | main.js:97 | as written, writeByte(0) then a 16383-byte chunk throws, while the intended writer holds all 16384 bytes |
| Headers.WriteHeader | main.js:146-163 | initial byte = major type in bits 5-7 with additional info < 28; length = 1 + argument width; inline value or big-endian argument equal to v (mod 2^64); the chosen additional info carries v mod 2^64, and no additional info that carries v is shorter |
| Headers.ReadHeader | main.js:124-144 | type = byte >> 5 and ai = byte & 0x1f; ai < 24 is the value; ai 24-27 read the 1/2/4/8-byte big-endian argument and advance past it, failing when it is truncated; ai 31 gives no value and consumes 1 byte; ai 28-30 throw; an empty input fails; every decoded argument is below 2^64 |
| Headers.ReadWellFormed | main.js:124-144 | wherever a complete header with additional info below 28 sits, readHeader gives its major type and its inline or big-endian argument, and moves past exactly its bytes |
| Headers.ArgumentBound | main.js:131-136 | a 2-, 4- or 8-byte big-endian argument is below 2^64 |
| Headers.HeaderRoundTrip | main.js:124-163 | readHeader of writeHeader(t, v), at any position in any buffer, gives (t, v mod 2^64) and advances by exactly the bytes written |
| Headers.HeaderRoundTripExact | main.js:124-163 | for v < 2^64, readHeader(writeHeader(t, v)) gives exactly (t, v) |
| Headers.HeaderLength | main.js:146-163 | the header is 1 byte for v < 24, 2 for v < 256, 3 for v < 65536, 5 for v < 2^32, and 9 otherwise |
| Codec.EncodeWriter | main.js:178-193 | integers and the infinities encode (major type 1 iff negative, never additional info 28-31); fractions, NaN and non-numbers throw NotImplemented |
| Codec.InfiniteHeader | main.js:159-161 | writeHeader of an infinity is 9 bytes: the major type with additional info 27, then an argument whose value is 0 |
| Codec.InfinityAsWritten | main.js:178-186 | +Infinity encodes as 0x1B and -Infinity as 0x3B, each followed by eight zero bytes, and they decode to 0 and -1 |
| Codec.InfiniteDecodes | main.js:165-171 | the bytes written for +Infinity decode to 0, and those for -Infinity to -1 |
| Codec.DecodeReader | main.js:165-176 | a result has major type 0 or 1, is negative iff the major type is 1, and advances the cursor; major types 2-7 and the indefinite marker are rejected; every result lies in [-2^64, 2^64) |
| Codec.DecodeReaderAsWritten | main.js:165-176 | as written, it agrees with DecodeReader where that succeeds, and gives null (type 0) or -1 (type 1) for additional info 31 |
| Codec.Decode | main.js:201-204 | an empty buffer fails; a result's sign matches the initial byte's major type |
| Codec.DecodeAsWritten | main.js:201-204 | as written, decode agrees with Decode wherever that succeeds, and gives null for 0x1F and -1 for 0x3F |
| Codec.Encode | main.js:196-200 | the StreamWriter's result equals encodeWriter's bytes, and for -2^64 <= n < 2^64 it decodes back to n |
| Codec.Transmit | main.js:196-200 | bytes passed one by one through writeByte into a new StreamWriter come back unchanged from result() |
| Codec.EncodeDecode | main.js:165-193 | decoding encode(n) followed by anything gives n with its magnitude truncated to 64 bits, consuming exactly the encoding |
| Codec.IntegerRoundTrip | main.js:165-193 | decode(encode(n)) == n for every -2^64 <= n < 2^64 |
| Codec.HeaderDecodes | main.js:165-171 | a written header of major type 0 or 1, followed by anything, decodes to its magnitude mod 2^64 (or -1 minus it), consuming exactly the header |
| Codec.NegativeTransform | main.js:182-186 | negative n is written under major type 1 with magnitude -1 - n, and non-negative n under major type 0 with magnitude n |
| Codec.EncodeExamples | main.js:146-163 | encode(-1) = 0x20; encode(-256) = 0x38 0xFF; the sizes are 1/2 at 23/24, 2/3 at 255/256, 3/5 at 65535/65536, and 5/9 at 2^32-1/2^32 |
| Codec.TruncatedArgument | main.js:133-134 | a header announcing a 4-byte argument followed by 2 bytes is rejected as truncated |
| Codec.IndefiniteIntegerAsWritten | main.js:137-139 | as written, 0x3F decodes to -1 like 0x20 and 0x1F to null, although encode never writes additional info 31; the corrected decoder rejects both as Malformed |
| Tags.CheckTag | main.js:206-208 | a tag is accepted iff it is a number, whole and non-negative, and yields that number; otherwise InvalidTag |
| Tags.AddSemanticEncode | main.js:205-211 | succeeds iff the tag is valid; appends (tag, fn) after all earlier encoders; the decoder map is unchanged |
| Tags.AddSemanticDecode | main.js:212-218 | succeeds iff the tag is valid; maps tag to fn, adds no other key, and changes no other entry or the encoder list |
| Tags.RegisterEncoders | main.js:205-211 | a chain of addSemanticEncode calls keeps the decoders and the earlier encoders, adds at most one entry per call and one per call when nothing throws; a throw is InvalidTag |
| Tags.RegisterDecoders | main.js:212-218 | a chain of addSemanticDecode calls keeps the encoders and every earlier decoder key; a throw is InvalidTag |
| Tags.Completed | main.js:205-218 | the number of calls before the first invalid tag: all tags before it are valid, and the one at it is not |
| Tags.EncodersInOrder | main.js:205-211 | a chain of encoder registrations throws iff some tag is invalid, and either way appends, in call order, the entries of the calls before the first invalid tag |
| Tags.LastDecoderWins | main.js:212-218 | after a chain of decoder registrations, thrown or not, each tag maps to the last handle the completed calls registered for it, or keeps its old entry |

## Left out

- `require('stream')` (main.js:1) is unused. `module.exports` (main.js:224-226) is packaging only.
- Double-precision arithmetic. JavaScript numbers are doubles, so not every integer above 2^53 is representable. There, `-1 - data` (main.js:183) and `readUint64`'s `hi * 2^32 + lo` (main.js:22) round. The model's magnitudes are exact naturals, so that rounding is not modelled. For example, JavaScript writes encode(-2^64) as 0x3B followed by eight zero bytes, while the model writes 0x3B followed by eight 0xFF bytes. `writeUint64`'s division by 2^32, its `Math.floor` and its `%` are exact on doubles, so `Writing.WriteUint64` matches the source for every whole-number argument.
- JavaScript's 32-bit `>>`. For a non-negative argument, the low 8 bits that `writeByte` keeps are the same under `>>` and under exact division, so the model uses division.
- Reading.PeekByte: out of bounds, the source's `peekByte` returns `undefined`. The model reports Truncated instead.
- Reading.ReadByte: out of bounds, the source's `readByte` returns `undefined` and does not fail. `readHeader` then reads it as header (0, 0), so decoding an empty buffer returns 0. The model reports Truncated instead.
- Reading.ReadUint16: `readUInt16BE` throws a RangeError out of bounds, and the model reports that as Truncated.
- Reading.ReadUint32: `readUInt32BE` throws a RangeError out of bounds, and the model reports that as Truncated.
- Reading.ReadChunk: the source copies whatever bytes remain and still advances the cursor by the full length. The model reports Truncated when fewer than n bytes remain.
- Streams.WriteChunk: the `instanceof Buffer` TypeError is not modelled. The chunk's type already guarantees bytes.
- Streams.WriteChunk: a chunk pushed directly is stored by reference in the source, so later mutation by the caller would show up in `result()`. Immutable sequences do not model that aliasing.
- Streams.Fresh: `new Buffer(n)` memory is uninitialised. The model zero-fills it, and those bytes never reach `result()`.
- Streams.WriteByteAsWritten: the source mutates the segment and offset before the ReferenceError. The model returns only the error.
- Streams.WriteChunkAsWritten: the source copies the chunk and advances the offset (main.js:94-95) before the ReferenceError. The model returns only the error.
- Values other than integers and the infinities: fractions, NaN and major types 2-7 appear only as the NotImplemented error (main.js:172-175, main.js:187-191). `peekByte`, `readChunk` and `writeChunk` are modelled, but neither encodeWriter nor decodeReader calls them.
- Registered `fn` callbacks are opaque user code, held as a handle of type `H`. The registry is a value that is passed along. In the source it is closure-level state shared by every caller, and registration returns `this` for chaining, which `Tags.RegisterEncoders` and `Tags.RegisterDecoders` model as a chain that keeps the committed calls when one throws.
- Tags.CheckTag: JavaScript's -0 is accepted as tag 0, but reals have no -0. The error message says "positive", while 0 is accepted, as modelled.
- Codec.EncodeWriter: integers whose magnitude is 2^64 or more are not rejected with a range error. `writeUint64` keeps the low 64 bits, and the model proves exactly that wrap-around (Codec.EncodeDecode).

## Findings

| source | as written | input that shows it | evidently intended | confidence | as-written member | corrected member |
|---|---|---|---|---|---|---|
| main.js:83 | a full segment is pushed as the unqualified `latestBuffer`, which throws ReferenceError | 16384 `writeByte` calls on a new StreamWriter | push `this.latestBuffer` and start a fresh segment | high; not executed | Streams.SegmentFillAsWritten | Streams.WriteByte |
| main.js:97 | the same unqualified `latestBuffer` when a copied chunk fills the segment | `writeByte(0)` then `writeChunk` of 16383 bytes | push `this.latestBuffer` and start a fresh segment | high; not executed | Streams.ChunkFillAsWritten | Streams.WriteChunk |
| main.js:137-139 | additional info 31 under major types 0 and 1 decodes to null and to -1 - null = -1 | decode of [0x3F] returns -1, the same value as [0x20]; [0x1F] returns null | reject these, since section 3.2.4 of RFC 8949 makes them not well-formed | medium; not executed | Codec.IndefiniteIntegerAsWritten | Codec.DecodeReader |
