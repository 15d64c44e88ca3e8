# php-buffer: the abstract Buffer, modelled in Dafny

`Nelexa\Buffer\Buffer` is a cursor over a binary string. It has a position, a limit
(the size), a byte order and a read-only flag. Four groups of operations work on it:

- Cursor operations move the position: `setPosition`, `rewind`, `skip*` and
  `newLimit`. `setOrder` chooses the byte order.
- A fixed-width integer codec turns typed values into bytes (`write*`) and
  decodes bytes read at the cursor (`get*`). It covers 8-, 16-, 32- and 64-bit
  integers in big- or little-endian order, booleans, signed byte arrays, strings
  with a 16-bit length prefix (`writeUTF`/`getUTF`) and strings of 16-bit units
  (`writeUTF16`/`getUTF16`).
- Typed wrappers `insertX`, `putX` and `replaceX` apply a primitive to `writeX(v)`.
- Concrete subclasses implement the primitives `get`, `insert`, `put`, `replace`,
  `remove`, `flip`, `truncate` and `toString`.

The model has five layers:

- `integer_codec.dfy` (module `IntegerCodec`) is arithmetic only. It covers
  unsigned and two's-complement readings of n bytes, narrowing to n bytes, and
  big- and little-endian layouts with their round trips.
- `wire.dfy` (module `Wire`) holds:
  - the byte-order names;
  - the errors and their messages;
  - `pack`/`unpack` for the codes the class uses;
  - every `write*` encoder as a pure function;
  - the decoders the `get*` methods use.
- `buffer_state.dfy` (module `BufferState`) holds the buffer as a value. That
  value is the four fields of the class plus the content a sequence-backed
  implementation keeps. There is one pure transition per operation, including the
  abstract primitives, whose behaviour is fixed by the doc comments and the
  scenario tests. Lemmas relate the transitions: splice algebra, guards and read-back.
- `buffer.dfy` (module `Buffers`) has a `class Buffer` with those fields. Every
  method updates them in place and is proved to perform exactly the `BufferState`
  transition, so every property proved there holds of the object.
- `insert_scenario.dfy` (module `InsertScenario`) and `scenarios.dfy` (module
  `BufferScenarios`) replay the scenarios of `BufferTestCase.php` on a fresh
  object and prove that each observes what the test asserts:
  - each scenario is proved for any data of the shape of the test's literals;
  - a wrapper then applies it to the literals themselves.

Errors are values. A failed call returns `Fail(error)` or `Failure(error)` and
leaves the state as it was, with one exception: when `getUTF` finds fewer bytes
than its prefix announces, it fails with the 2-byte prefix already consumed
(`BufferState.UTFFailureConsumesPrefix`). `Error.Message()` is the exception's
text, e.g. "put length > remaining".

Three helpers carry no contract of their own:
- `Error.Message()` and `Decimal` build the exception texts. `Wire.SourceMessages`
  and `Wire.PositionMessage` pin those texts.
- `IsTrue` is getBoolean's `(bool)` cast of a byte, as `Wire.WriteBoolean`'s
  contract uses it. `BufferState.GetBoolean` states the same test directly.

Where the code and its natural reading differ, the model follows the code:

- `insert` and `replace` advance the position past the new bytes.
- `setPosition` accepts a negative position: it only compares against the limit.
- `writeUTF` does not reject texts of 65536 bytes or more. Its 16-bit prefix wraps
  (`BufferState.UTFLengthWraps`).
- `writeUTF16` and `getUTF16` use pack code `S`, which is the host's order and
  not the buffer's. The model fixes that order to little-endian.

## Model

| member | source | states |
|---|---|---|
| IntegerCodec.ToSigned | src/Nelexa/Buffer/Buffer.php:303-333 | the two's-complement reading of an unsigned n-byte value lies in [-2^(8n-1), 2^(8n-1)) and is non-negative exactly when the top bit is clear |
| IntegerCodec.Narrow | src/Nelexa/Buffer/Buffer.php:285-324 | narrowing (Cast::toByte/toShort/toInt) gives the one value of the signed n-byte range with the same low 8n bits as v |
| IntegerCodec.NarrowUnique | src/Nelexa/Buffer/Buffer.php:285-324 | any value in the signed range with v's low bits is Narrow(v, n) |
| IntegerCodec.NarrowInRange | src/Nelexa/Buffer/Buffer.php:285-324 | a value already in the signed n-byte range is unchanged by narrowing |
| IntegerCodec.NarrowIdempotent | src/Nelexa/Buffer/Buffer.php:285-324 | narrowing twice is narrowing once |
| IntegerCodec.SignedKeepsLowBits | src/Nelexa/Buffer/Buffer.php:303-324 | the signed reading keeps the unsigned value's low bits |
| IntegerCodec.NarrowOfUnsigned | src/Nelexa/Buffer/Buffer.php:303-324 | narrowing an unsigned n-byte value is its two's-complement reading |
| IntegerCodec.ToUnsigned | src/Nelexa/Buffer/Buffer.php:441-505 | pack's masking of v to n bytes lies below 2^(8n); SignedKeepsLowBits and NarrowOfUnsigned relate it to the signed reading |
| IntegerCodec.EncodeBE | src/Nelexa/Buffer/Buffer.php:441-505 | the n/N/J layout has n bytes; EncodeBEBytes and DecodeEncodeBE give its bytes and value |
| IntegerCodec.EncodeLE | src/Nelexa/Buffer/Buffer.php:441-505 | the v/V/P layout has n bytes; EncodeLEBytes and DecodeEncodeLE give its bytes and value |
| IntegerCodec.DecodeBE | src/Nelexa/Buffer/Buffer.php:294-333 | unpack n/N of b is below 2^(8·\|b\|); EncodeDecodeBE makes it the inverse of EncodeBE |
| IntegerCodec.DecodeLE | src/Nelexa/Buffer/Buffer.php:294-333 | unpack v/V of b is below 2^(8·\|b\|); EncodeDecodeLE makes it the inverse of EncodeLE |
| IntegerCodec.EncodeBEBytes | src/Nelexa/Buffer/Buffer.php:441-460 | in big-endian layout byte i is the (n-1-i)-th least significant byte (codes n/N/J) |
| IntegerCodec.EncodeLEBytes | src/Nelexa/Buffer/Buffer.php:441-460 | in little-endian layout byte i is the i-th least significant byte (codes v/V/P) |
| IntegerCodec.EncodeLEIsReversedBE | src/Nelexa/Buffer/Buffer.php:441-460 | the little-endian layout is the big-endian one reversed |
| IntegerCodec.EncodeBEWiden | src/Nelexa/Buffer/Buffer.php:485-505 | a value of m bytes laid out big-endian over m+k bytes is k zero bytes then its m-byte layout |
| IntegerCodec.EncodeLEWiden | src/Nelexa/Buffer/Buffer.php:485-505 | the same little-endian: its m-byte layout then k zero bytes |
| IntegerCodec.EncodeZeroBE | src/Nelexa/Buffer/Buffer.php:485-505 | zero is all zero bytes, big-endian |
| IntegerCodec.EncodeZeroLE | src/Nelexa/Buffer/Buffer.php:485-505 | zero is all zero bytes, little-endian |
| IntegerCodec.DecodeEncodeBE | src/Nelexa/Buffer/Buffer.php:312-315 | decoding a big-endian layout gives the value back |
| IntegerCodec.DecodeEncodeLE | src/Nelexa/Buffer/Buffer.php:312-315 | decoding a little-endian layout gives the value back |
| IntegerCodec.EncodeDecodeBE | src/Nelexa/Buffer/Buffer.php:312-315 | laying out a decoded big-endian byte string gives the bytes back |
| IntegerCodec.EncodeDecodeLE | src/Nelexa/Buffer/Buffer.php:312-315 | laying out a decoded little-endian byte string gives the bytes back |
| Wire.ParseOrder | src/Nelexa/Buffer/Buffer.php:148-152 | setOrder keeps LITTLE_ENDIAN and maps every other name to BIG_ENDIAN (both directions) |
| Wire.OrderName | src/Nelexa/Buffer/Buffer.php:166-169 | order() is one of the two constants, LITTLE_ENDIAN exactly for little-endian |
| Wire.ParseOrderName | src/Nelexa/Buffer/Buffer.php:148-169 | order() names the order so that setOrder(order()) restores it, and parsing a parsed name changes nothing |
| Wire.DecodeUnsigned | src/Nelexa/Buffer/Buffer.php:294-333 | unpack('C'/'n'/'v'/'N'/'V') of b is below 2^(8·\|b\|) |
| Wire.SourceMessages | src/Nelexa/Buffer/Buffer.php:120-533 | the fixed exception texts: "New Limit < 0", "null " + type, and "put/replace/remove length > remaining" |
| Wire.PositionMessage | src/Nelexa/Buffer/Buffer.php:34-42 | setPosition's message prints position and limit in decimal: "Set position 12 invalid. Exceeded limit 9" |
| Wire.WriteString | src/Nelexa/Buffer/Buffer.php:466-469 | writeString returns its argument unchanged |
| Wire.DecodeSigned | src/Nelexa/Buffer/Buffer.php:303-352 | the signed reading of n bytes lies in the signed n-byte range |
| Wire.Pack | src/Nelexa/Buffer/Buffer.php:441-460 | pack gives exactly n bytes, decodes back to v mod 2^(8n), and puts each byte where the order says |
| Wire.PackDecodeUnsigned | src/Nelexa/Buffer/Buffer.php:312-333 | packing what a byte string decodes to gives that byte string |
| Wire.PackWiden | src/Nelexa/Buffer/Buffer.php:454-505 | a 4-byte value packed into 8 bytes is zero bytes then the value (big-endian) or the value then zero bytes (little-endian) |
| Wire.DecodeSignedPack | src/Nelexa/Buffer/Buffer.php:303-352 | the signed reading of pack(v) is v narrowed |
| Wire.SingleByteIgnoresOrder | src/Nelexa/Buffer/Buffer.php:285-297 | one byte packs and decodes the same in both orders |
| Wire.PackByte | src/Nelexa/Buffer/Buffer.php:415-421 | pack('c') of a value in [0, 256), such as writeBoolean's 0 or 1, is that one byte |
| Wire.WriteBoolean | src/Nelexa/Buffer/Buffer.php:415-421 | null fails with "null boolean"; otherwise one byte, 1 for true and 0 for false, read back as true exactly when the value was true |
| Wire.WriteByte | src/Nelexa/Buffer/Buffer.php:428-434 | null fails with "null byte"; otherwise one byte holding v's low 8 bits, whose signed reading is v narrowed |
| Wire.WriteInteger | src/Nelexa/Buffer/Buffer.php:441-505 | null fails with "null <kind>"; otherwise n bytes that decode to v mod 2^(8n) unsigned and to v narrowed signed |
| Wire.WriteShort | src/Nelexa/Buffer/Buffer.php:441-447 | null fails; otherwise 2 bytes decoding to v mod 2^16 in the given order |
| Wire.WriteInt | src/Nelexa/Buffer/Buffer.php:454-460 | null fails; otherwise 4 bytes decoding to v mod 2^32 in the given order |
| Wire.WriteLong | src/Nelexa/Buffer/Buffer.php:485-505 | null fails; otherwise 8 bytes whose signed reading is v as an int64 |
| Wire.WriteArrayBytes | src/Nelexa/Buffer/Buffer.php:475-478 | one byte per element, each element's signed 8-bit reading |
| Wire.SignedBytes | src/Nelexa/Buffer/Buffer.php:372-380 | unpack('c*') gives, per byte, that byte's two's-complement reading, in [-128, 128) |
| Wire.ArrayBytesRoundTrip | src/Nelexa/Buffer/Buffer.php:372-380 | reading a written array gives each element narrowed to a signed byte, so an array of signed bytes comes back unchanged |
| Wire.WriteUTF | src/Nelexa/Buffer/Buffer.php:514-523 | null fails with "null str"; otherwise a 2-byte length, mod 65536 in the buffer's order, followed by the raw bytes |
| Wire.Utf16Units | src/Nelexa/Buffer/Buffer.php:530-538 | byte i of the text becomes the 2-byte unit [s[i], 0] at offset 2·i, so the output is twice as long |
| Wire.ByteUnit | src/Nelexa/Buffer/Buffer.php:530-538 | pack('S', c) of one byte c in the host's little-endian order is [c, 0] |
| Wire.LowBytes | src/Nelexa/Buffer/Buffer.php:401-407 | one byte per 2-byte unit: the result is half as long as its input |
| Wire.UnitLowByte | src/Nelexa/Buffer/Buffer.php:401-407 | unpack('S') of a unit, narrowed by chr, is the unit's first byte |
| Wire.LowBytesKeepFirst | src/Nelexa/Buffer/Buffer.php:401-407 | byte i of the result is byte 2·i of the input |
| Wire.Utf16RoundTrip | src/Nelexa/Buffer/Buffer.php:401-407 | the low bytes of the units of s are s (any byte string round-trips) |
| Wire.WriteUTF16 | src/Nelexa/Buffer/Buffer.php:530-538 | null fails with "null UTF16"; a non-empty text gives 2 bytes per byte, byte 2·i being s[i] and byte 2·i+1 zero, whose low bytes are the text; the empty text gives one zero unit |
| BufferState.Remaining | src/Nelexa/Buffer/Buffer.php:93-96 | for a valid state, remaining() is the number of content bytes after the position |
| BufferState.HasRemaining | src/Nelexa/Buffer/Buffer.php:93-107 | hasRemaining() holds exactly when limit - position > 0 |
| BufferState.Initial | src/Nelexa/Buffer/Buffer.php:13-25 | a new buffer over a content starts at position 0 with the limit at its size |
| BufferState.SetPosition | src/Nelexa/Buffer/Buffer.php:34-42 | beyond the limit fails with the source's message and changes nothing; otherwise the position becomes exactly p, negative p included |
| BufferState.Rewind | src/Nelexa/Buffer/Buffer.php:69-73 | the position becomes 0 and nothing else changes |
| BufferState.Skip | src/Nelexa/Buffer/Buffer.php:222-226 | skip(n) succeeds exactly when position + n does not pass the limit, and then moves the position by n; otherwise nothing changes |
| BufferState.NewLimit | src/Nelexa/Buffer/Buffer.php:117-127 | a negative limit fails and changes nothing; otherwise the limit becomes n and the position min(position, n), so position <= limit holds |
| BufferState.SetOrder | src/Nelexa/Buffer/Buffer.php:148-152 | only the order changes, to little-endian exactly for LITTLE_ENDIAN |
| BufferState.SetOrderIdempotent | src/Nelexa/Buffer/Buffer.php:148-169 | setOrder twice with one name is setOrder once, and setOrder(order()) changes nothing |
| BufferState.SetReadOnly | src/Nelexa/Buffer/Buffer.php:190-194 | only the flag changes |
| BufferState.Get | src/Nelexa/Buffer/Buffer.php:206-214 | get(n) succeeds exactly when 0 <= n <= remaining() at a non-negative position and returns the n bytes at the position, which then moves by n; on failure nothing changes |
| BufferState.Insert | src/Nelexa/Buffer/Buffer.php:540-545 | content becomes C[0:p] + b + C[p:], the limit grows by \|b\|, the position moves past b, and order and flag stay |
| BufferState.Put | src/Nelexa/Buffer/Buffer.php:655-665 | \|b\| > remaining() fails with "put length > remaining" and changes nothing; otherwise b overwrites the bytes at p, the size stays and the position moves past b |
| BufferState.Replace | src/Nelexa/Buffer/Buffer.php:775-781 | n > remaining() fails with "replace length > remaining"; otherwise content becomes C[0:p] + b + C[p+n:] and the position moves past b |
| BufferState.Remove | src/Nelexa/Buffer/Buffer.php:900-905 | n > remaining() fails with "remove length > remaining"; otherwise content becomes C[0:p] + C[p+n:] and the position stays |
| BufferState.Flip | src/Nelexa/Buffer/Buffer.php:74-85 | the limit becomes the old position, the content is cut there and the position becomes 0 |
| BufferState.Truncate | src/Nelexa/Buffer/Buffer.php:907-912 | content, position and limit become empty and 0, and order and flag stay |
| BufferState.InsertWritten | src/Nelexa/Buffer/Buffer.php:554-653 | insertX(v) is insert(writeX(v)); a refused value (null) fails before the primitive runs and changes nothing |
| BufferState.PutWritten | src/Nelexa/Buffer/Buffer.php:674-773 | putX(v) is put(writeX(v)); a refused value fails before the primitive runs |
| BufferState.ReplaceWritten | src/Nelexa/Buffer/Buffer.php:791-898 | replaceX(v, n) is replace(writeX(v), n); a refused value fails before the primitive runs |
| BufferState.GetUnsigned | src/Nelexa/Buffer/Buffer.php:294-333 | getUnsignedByte/Short/Int succeed exactly when n bytes remain at a non-negative position, give a value in [0, 2^(8n)) and advance by n |
| BufferState.GetSigned | src/Nelexa/Buffer/Buffer.php:285-352 | getByte/Short/Int/Long succeed exactly when n bytes remain at a non-negative position, give a value in the signed range and advance by n |
| BufferState.GetBoolean | src/Nelexa/Buffer/Buffer.php:276-279 | getBoolean succeeds exactly when a byte remains at a non-negative position, advances by 1, and gives true exactly when the byte at the cursor is non-zero |
| BufferState.GetString | src/Nelexa/Buffer/Buffer.php:359-365 | a size <= 0 gives the empty string and does not move; a positive size succeeds exactly when size bytes remain at a non-negative position, gives those bytes and moves by size; a failure changes nothing |
| BufferState.GetArrayBytes | src/Nelexa/Buffer/Buffer.php:372-380 | a size <= 0 gives the empty array and does not move; a positive size succeeds exactly when size bytes remain at a non-negative position, gives their signed readings and moves by size; a failure changes nothing |
| BufferState.GetUTF | src/Nelexa/Buffer/Buffer.php:386-394 | on success 2 + \|text\| bytes are consumed and the text is the bytes after the 2-byte prefix; a failure leaves the position where it was or after the prefix |
| BufferState.GetUTF16 | src/Nelexa/Buffer/Buffer.php:401-407 | a length <= 0 gives the empty string and does not move; otherwise it succeeds exactly when 2·length bytes remain at a non-negative position, consumes them, and gives the low byte of each of their units |
| BufferState.UTF16ReadsLowBytes | src/Nelexa/Buffer/Buffer.php:401-407 | where 2·length bytes remain, getUTF16(length) succeeds and character i is the byte 2·i bytes past the cursor |
| BufferState.ReplaceIsRemoveThenInsert | src/Nelexa/Buffer/Buffer.php:775-905 | replace(b, n) succeeds exactly when remove(n) does, and is then remove(n) followed by insert(b) |
| BufferState.ConsecutiveInserts | tests/Nelexa/Buffer/BufferTestCase.php:79-81 | two inserts leave C[0:p] + a + b + C[p:] with the position past both, so inserts read back in call order |
| BufferState.InsertedBytesAreAt | tests/Nelexa/Buffer/BufferTestCase.php:44-55 | after insert(b) at p, get(\|b\|) from p returns b and ends where insert left the position |
| BufferState.PutOverwritesInPlace | tests/Nelexa/Buffer/BufferTestCase.php:247-265 | put(b) leaves the size unchanged, b at the old position and every other byte as it was |
| BufferState.GuardBeforeMutate | tests/Nelexa/Buffer/BufferTestCase.php:288-316 | put, replace and remove beyond remaining() fail with their messages and leave the whole state unchanged |
| BufferState.AtConcat | src/Nelexa/Buffer/Buffer.php:206-214 | bytes x + y at the cursor are x there and y right after it |
| BufferState.GetReadsAt | src/Nelexa/Buffer/Buffer.php:206-214 | get returns exactly the bytes found at the cursor and moves past them |
| BufferState.IntegerReadsBack | src/Nelexa/Buffer/Buffer.php:294-352 | bytes written by pack(v, n) in the buffer's order read back as v mod 2^(8n) unsigned and v narrowed signed, moving by n |
| BufferState.ByteReadsBack | src/Nelexa/Buffer/Buffer.php:285-297 | a written byte reads back as v narrowed (getByte) and v mod 256 (getUnsignedByte) |
| BufferState.InsertThenGetInteger | tests/Nelexa/Buffer/BufferTestCase.php:155-223 | inserting an n-byte integer and reading from where it went gives it back narrowed or masked, in either order |
| BufferState.BooleanReadsBack | src/Nelexa/Buffer/Buffer.php:276-279 | a written boolean reads back as itself |
| BufferState.ArrayBytesReadBack | src/Nelexa/Buffer/Buffer.php:372-380 | a written array reads back narrowed to signed bytes, unchanged when it held signed bytes |
| BufferState.StringReadsBack | src/Nelexa/Buffer/Buffer.php:359-365 | a written string reads back with getString(\|s\|) |
| BufferState.StringPrefixReadsBack | src/Nelexa/Buffer/Buffer.php:359-365 | getString(n) over bytes s at the cursor, with n <= \|s\|, reads the first n of them and advances by n |
| BufferState.UTFReadsBack | src/Nelexa/Buffer/Buffer.php:386-394 | a writeUTF text under 65536 bytes reads back with getUTF, consuming 2 + \|s\| |
| BufferState.UTFLengthWraps | src/Nelexa/Buffer/Buffer.php:514-523 | a text of 65536 bytes or more gets the prefix \|s\| mod 65536, and getUTF then returns only the first \|s\| mod 65536 bytes (none when that is 0) |
| BufferState.UTFFailureConsumesPrefix | src/Nelexa/Buffer/Buffer.php:386-394 | when fewer bytes remain than the prefix announces, getUTF fails with the position after the prefix |
| BufferState.UTF16ReadsBack | src/Nelexa/Buffer/Buffer.php:401-407 | a non-empty writeUTF16 text reads back with getUTF16(\|s\|), consuming 2·\|s\| |
| BufferState.UTF16EmptyIsNotRead | src/Nelexa/Buffer/Buffer.php:401-407 | writeUTF16("") writes 2 bytes but getUTF16(0) reads nothing |
| Buffers.Buffer.constructor | src/Nelexa/Buffer/Buffer.php:13-25 | a new object is the initial state over its content |
| Buffers.Buffer.Position | src/Nelexa/Buffer/Buffer.php:49-52 | the position field |
| Buffers.Buffer.Size | src/Nelexa/Buffer/Buffer.php:134-137 | the limit, which is the content's size |
| Buffers.Buffer.Order | src/Nelexa/Buffer/Buffer.php:166-169 | the name of the stored order: one of the two constants, LITTLE_ENDIAN exactly when the order is little-endian |
| Buffers.Buffer.IsReadOnly | src/Nelexa/Buffer/Buffer.php:201-204 | isReadOnly() is the stored flag |
| Buffers.Buffer.Remaining | src/Nelexa/Buffer/Buffer.php:93-96 | limit - position |
| Buffers.Buffer.HasRemaining | src/Nelexa/Buffer/Buffer.php:104-107 | remaining() > 0 |
| Buffers.Buffer.ToString | src/Nelexa/Buffer/Buffer.php:922 | the content |
| Buffers.Buffer.SetPosition | src/Nelexa/Buffer/Buffer.php:34-42 | the fields change as BufferState.SetPosition says |
| Buffers.Buffer.Rewind | src/Nelexa/Buffer/Buffer.php:69-73 | the fields change as BufferState.Rewind says |
| Buffers.Buffer.Skip | src/Nelexa/Buffer/Buffer.php:222-226 | the fields change as BufferState.Skip says |
| Buffers.Buffer.SkipByte | src/Nelexa/Buffer/Buffer.php:233-237 | skip(1) |
| Buffers.Buffer.SkipShort | src/Nelexa/Buffer/Buffer.php:244-248 | skip(2) |
| Buffers.Buffer.SkipInt | src/Nelexa/Buffer/Buffer.php:255-259 | skip(4) |
| Buffers.Buffer.SkipLong | src/Nelexa/Buffer/Buffer.php:266-270 | skip(8) |
| Buffers.Buffer.NewLimit | src/Nelexa/Buffer/Buffer.php:117-127 | the fields change as BufferState.NewLimit says (protected in the source and called by no shown code; in this model only Flip calls it) |
| Buffers.Buffer.SetOrder | src/Nelexa/Buffer/Buffer.php:148-152 | the fields change as BufferState.SetOrder says |
| Buffers.Buffer.SetReadOnly | src/Nelexa/Buffer/Buffer.php:190-194 | the fields change as BufferState.SetReadOnly says |
| Buffers.Buffer.Get | src/Nelexa/Buffer/Buffer.php:206-214 | the fields and result are those of BufferState.Get |
| Buffers.Buffer.Insert | src/Nelexa/Buffer/Buffer.php:540-545 | the fields change as BufferState.Insert says |
| Buffers.Buffer.Put | src/Nelexa/Buffer/Buffer.php:655-665 | the fields change as BufferState.Put says |
| Buffers.Buffer.Replace | src/Nelexa/Buffer/Buffer.php:775-781 | the fields change as BufferState.Replace says |
| Buffers.Buffer.Remove | src/Nelexa/Buffer/Buffer.php:900-905 | the fields change as BufferState.Remove says |
| Buffers.Buffer.Flip | src/Nelexa/Buffer/Buffer.php:74-85 | the fields change as BufferState.Flip says |
| Buffers.Buffer.Truncate | src/Nelexa/Buffer/Buffer.php:907-912 | the fields change as BufferState.Truncate says |
| Buffers.Buffer.GetUnsignedByte | src/Nelexa/Buffer/Buffer.php:294-297 | BufferState.GetUnsigned over 1 byte |
| Buffers.Buffer.GetUnsignedShort | src/Nelexa/Buffer/Buffer.php:312-315 | BufferState.GetUnsigned over 2 bytes in the buffer's order |
| Buffers.Buffer.GetUnsignedInt | src/Nelexa/Buffer/Buffer.php:330-333 | BufferState.GetUnsigned over 4 bytes |
| Buffers.Buffer.GetBoolean | src/Nelexa/Buffer/Buffer.php:276-279 | BufferState.GetBoolean |
| Buffers.Buffer.GetByte | src/Nelexa/Buffer/Buffer.php:285-288 | BufferState.GetSigned over 1 byte |
| Buffers.Buffer.GetShort | src/Nelexa/Buffer/Buffer.php:303-306 | BufferState.GetSigned over 2 bytes |
| Buffers.Buffer.GetInt | src/Nelexa/Buffer/Buffer.php:321-324 | BufferState.GetSigned over 4 bytes |
| Buffers.Buffer.GetLong | src/Nelexa/Buffer/Buffer.php:339-352 | BufferState.GetSigned over 8 bytes |
| Buffers.Buffer.GetString | src/Nelexa/Buffer/Buffer.php:359-365 | BufferState.GetString |
| Buffers.Buffer.GetArrayBytes | src/Nelexa/Buffer/Buffer.php:372-380 | BufferState.GetArrayBytes |
| Buffers.Buffer.GetUTF | src/Nelexa/Buffer/Buffer.php:386-394 | BufferState.GetUTF |
| Buffers.Buffer.GetUTF16 | src/Nelexa/Buffer/Buffer.php:401-407 | BufferState.GetUTF16 |
| Buffers.Buffer.InsertWritten | src/Nelexa/Buffer/Buffer.php:554-653 | BufferState.InsertWritten: insert an encoder's bytes, or fail with its error and change nothing |
| Buffers.Buffer.PutWritten | src/Nelexa/Buffer/Buffer.php:674-773 | BufferState.PutWritten |
| Buffers.Buffer.ReplaceWritten | src/Nelexa/Buffer/Buffer.php:791-898 | BufferState.ReplaceWritten |
| Buffers.Buffer.InsertBoolean | src/Nelexa/Buffer/Buffer.php:554-557 | insert(writeBoolean(v)) |
| Buffers.Buffer.InsertByte | src/Nelexa/Buffer/Buffer.php:566-569 | insert(writeByte(v)) |
| Buffers.Buffer.InsertShort | src/Nelexa/Buffer/Buffer.php:578-581 | insert(writeShort(v)) in the order before the call |
| Buffers.Buffer.InsertInt | src/Nelexa/Buffer/Buffer.php:590-593 | insert(writeInt(v)) |
| Buffers.Buffer.InsertLong | src/Nelexa/Buffer/Buffer.php:602-605 | insert(writeLong(v)) |
| Buffers.Buffer.InsertString | src/Nelexa/Buffer/Buffer.php:614-617 | insert(writeString(s)) |
| Buffers.Buffer.InsertArrayBytes | src/Nelexa/Buffer/Buffer.php:626-629 | insert(writeArrayBytes(a)) |
| Buffers.Buffer.InsertUTF | src/Nelexa/Buffer/Buffer.php:638-641 | insert(writeUTF(s)) |
| Buffers.Buffer.InsertUTF16 | src/Nelexa/Buffer/Buffer.php:650-653 | insert(writeUTF16(s)) |
| Buffers.Buffer.PutBoolean | src/Nelexa/Buffer/Buffer.php:674-677 | put(writeBoolean(v)) |
| Buffers.Buffer.PutByte | src/Nelexa/Buffer/Buffer.php:686-689 | put(writeByte(v)) |
| Buffers.Buffer.PutShort | src/Nelexa/Buffer/Buffer.php:698-701 | put(writeShort(v)) |
| Buffers.Buffer.PutInt | src/Nelexa/Buffer/Buffer.php:710-713 | put(writeInt(v)) |
| Buffers.Buffer.PutLong | src/Nelexa/Buffer/Buffer.php:722-725 | put(writeLong(v)) |
| Buffers.Buffer.PutString | src/Nelexa/Buffer/Buffer.php:734-737 | put(writeString(s)) |
| Buffers.Buffer.PutArrayBytes | src/Nelexa/Buffer/Buffer.php:746-749 | put(writeArrayBytes(a)) |
| Buffers.Buffer.PutUTF | src/Nelexa/Buffer/Buffer.php:758-761 | put(writeUTF(s)) |
| Buffers.Buffer.PutUTF16 | src/Nelexa/Buffer/Buffer.php:770-773 | put(writeUTF16(s)) |
| Buffers.Buffer.ReplaceBoolean | src/Nelexa/Buffer/Buffer.php:791-794 | replace(writeBoolean(v), n) |
| Buffers.Buffer.ReplaceByte | src/Nelexa/Buffer/Buffer.php:804-807 | replace(writeByte(v), n) |
| Buffers.Buffer.ReplaceShort | src/Nelexa/Buffer/Buffer.php:817-820 | replace(writeShort(v), n) |
| Buffers.Buffer.ReplaceInt | src/Nelexa/Buffer/Buffer.php:830-833 | replace(writeInt(v), n) |
| Buffers.Buffer.ReplaceLong | src/Nelexa/Buffer/Buffer.php:843-846 | replace(writeLong(v), n) |
| Buffers.Buffer.ReplaceString | src/Nelexa/Buffer/Buffer.php:856-859 | replace(writeString(s), n) |
| Buffers.Buffer.ReplaceArrayBytes | src/Nelexa/Buffer/Buffer.php:869-872 | replace(writeArrayBytes(a), n) |
| Buffers.Buffer.ReplaceUTF | src/Nelexa/Buffer/Buffer.php:882-885 | replace(writeUTF(s), n) |
| Buffers.Buffer.ReplaceUTF16 | src/Nelexa/Buffer/Buffer.php:895-898 | replace(writeUTF16(s), n) |
| InsertScenario.Pieces | tests/Nelexa/Buffer/BufferTestCase.php:76-151 | one pass inserts 23 pieces, one per typed insert |
| InsertScenario.PrefixExtends | tests/Nelexa/Buffer/BufferTestCase.php:76-151 | the bytes of the first k pieces begin the bytes of the first m >= k pieces |
| InsertScenario.AppendPiece | tests/Nelexa/Buffer/BufferTestCase.php:76-151 | inserting piece j at the end of the first j pieces gives the first j+1 pieces |
| InsertScenario.PieceAt | tests/Nelexa/Buffer/BufferTestCase.php:153-243 | with the cursor after the first k pieces of all of them, piece k is at the cursor |
| InsertScenario.PieceLength | tests/Nelexa/Buffer/BufferTestCase.php:153-243 | each piece is as long as the gap between the positions the test checks around it |
| InsertScenario.PrefixLength | tests/Nelexa/Buffer/BufferTestCase.php:153-243 | the first k pieces end at the k-th checked position |
| InsertScenario.WriteAll | tests/Nelexa/Buffer/BufferTestCase.php:76-151 | the typed inserts in the test's order leave exactly the 23 pieces, in call order, with the position at the end |
| InsertScenario.ReadBytes | tests/Nelexa/Buffer/BufferTestCase.php:155-171 | getByte gives each byte narrowed and, after setPosition(0), getUnsignedByte each byte mod 256, at positions 0..3 twice |
| InsertScenario.ReadShorts | tests/Nelexa/Buffer/BufferTestCase.php:173-188 | getShort gives each short narrowed and, after skip(-6), getUnsignedShort each mod 2^16, at positions 5, 7, 9, 3, 5, 7, 9 |
| InsertScenario.ReadInts | tests/Nelexa/Buffer/BufferTestCase.php:190-199 | getInt gives each int narrowed to 32 bits, at positions 13..29 |
| InsertScenario.ReadUnsignedInts | tests/Nelexa/Buffer/BufferTestCase.php:201-212 | after skip(-20), getUnsignedInt gives each int mod 2^32, at positions 13..29 |
| InsertScenario.ReadLongsFlagsArray | tests/Nelexa/Buffer/BufferTestCase.php:214-231 | getLong gives each long, getBoolean true then false, getArrayBytes(5) the array, at positions 37..76 |
| InsertScenario.ReadTexts | tests/Nelexa/Buffer/BufferTestCase.php:233-243 | getString, getUTF and getUTF16 each give the text and getString the other buffer's content, at 76+L, 78+2L, 78+4L and 78+5L |
| InsertScenario.InsertRound | tests/Nelexa/Buffer/BufferTestCase.php:72-243 | one pass in the given order observes exactly every value and position the test asserts |
| InsertScenario.InsertFunctional | tests/Nelexa/Buffer/BufferTestCase.php:67-245 | both passes, big- then little-endian on one buffer, observe exactly what the test asserts, for any text of 1 to 65535 bytes |
| BufferScenarios.Ascii | tests/Nelexa/Buffer/BufferTestCase.php:42-65 | a PHP literal of ASCII characters as its bytes |
| BufferScenarios.BaseWords | tests/Nelexa/Buffer/BufferTestCase.php:42-65 | the test's words split into the pieces the steps move |
| BufferScenarios.OverwriteHead | tests/Nelexa/Buffer/BufferTestCase.php:44-51 | insertString, rewind and putString give "My Iphone"; rewind and replaceString('P', 5) give "Phone" |
| BufferScenarios.PrependAndCut | tests/Nelexa/Buffer/BufferTestCase.php:53-64 | insertString('Tele') at 0 gives "TelePhone"; skip(2) and flip give "TelePh" at position 0; truncate gives position 0 and size 0 |
| BufferScenarios.BaseRound | tests/Nelexa/Buffer/BufferTestCase.php:42-65 | the whole scenario on any text of the literals' shape: each step succeeds and leaves the expected text |
| BufferScenarios.BaseFunctional | tests/Nelexa/Buffer/BufferTestCase.php:42-65 | testBaseFunctional sees "My Iphone", "Phone", "TelePhone", "TelePh", position 0, then position 0 and size 0 |
| BufferScenarios.DigitWords | tests/Nelexa/Buffer/BufferTestCase.php:267-278 | "123456789" and "123789" split into their three-digit pieces |
| BufferScenarios.BooleanOverMiddle | tests/Nelexa/Buffer/BufferTestCase.php:270-271 | setPosition(3) and replaceBoolean(true, 3) on a + m + z leave a + [1] + z at position 4 |
| BufferScenarios.CutAndRestore | tests/Nelexa/Buffer/BufferTestCase.php:273-277 | skip(-1) and replaceString('', 1) leave a + z; replaceString(m, 0) then gives a + m + z |
| BufferScenarios.ReplaceRound | tests/Nelexa/Buffer/BufferTestCase.php:267-278 | on a + m + z: replaceBoolean(true, 3) at 3 leaves a + [1] + z; replace('', 1) after skip(-1) leaves a + z; replace(m, 0) restores a + m + z |
| BufferScenarios.ReplaceFunctional | tests/Nelexa/Buffer/BufferTestCase.php:267-278 | testReplaceFunctional sees "123"+[1]+"789", "123789", "123456789" and no call fails |
| BufferScenarios.RemoveFunctional | tests/Nelexa/Buffer/BufferTestCase.php:280-286 | remove(3) at 3 of "123456789" leaves "123789" |
| BufferScenarios.PutException | tests/Nelexa/Buffer/BufferTestCase.php:288-296 | putString("Test") on an empty buffer fails with "put length > remaining" and the size stays 0 |
| BufferScenarios.ReplaceException | tests/Nelexa/Buffer/BufferTestCase.php:298-306 | replaceString("Test", 5) on an empty buffer fails with "replace length > remaining" |
| BufferScenarios.RemoveException | tests/Nelexa/Buffer/BufferTestCase.php:308-316 | remove(1) on an empty buffer fails with "remove length > remaining" |
| BufferScenarios.IntFitsLong | tests/Nelexa/Buffer/BufferTestCase.php:247-265 | an unsigned 4-byte value reads back unchanged as a signed long |
| BufferScenarios.PutIntIntoBigEndianLong | tests/Nelexa/Buffer/BufferTestCase.php:249-254 | big-endian insertLong(x), setPosition(4), putInt(y) leave the long y, which getLong reads |
| BufferScenarios.PutLittleEndianLong | tests/Nelexa/Buffer/BufferTestCase.php:256-260 | little-endian putLong(x) over a long reads back as x |
| BufferScenarios.PutIntIntoLittleEndianLong | tests/Nelexa/Buffer/BufferTestCase.php:261-264 | little-endian putInt(y) at 0 over the long x leaves the long y |
| BufferScenarios.PutRound | tests/Nelexa/Buffer/BufferTestCase.php:247-265 | for any x and y below 2^32 the three getLong calls see y, x, y |
| BufferScenarios.PutFunctional | tests/Nelexa/Buffer/BufferTestCase.php:247-265 | testPutFunctional sees 98765, 12345, 98765 |

## Left out

- The concrete buffers are not part of this model: memory, string, file and
  stream backings, their chunked shifting, and `close`. One sequence-backed
  implementation of the primitives stands for them.
- The primitives are abstract in the source, so their guards come from the
  three exception tests and the doc comments. A negative position or a negative
  length is refused with a model-specific error, after the length check the
  tests pin down. `flip` at a negative position fails through `newLimit`.
- `setReadOnly` stores the flag, but nothing checks it, so no call is refused
  for read-only.
- `getLong` and `writeLong` keep only the native 64-bit path. The branches for
  PHP older than 5.6.3 are not modelled.
- The `Cast` class is not part of this model. Its narrowing is `IntegerCodec.Narrow`,
  masking to the low bits and reading them as two's complement.
- The `S` pack code is the host's byte order, fixed here to little-endian.
- PHP values are bytes. Texts are `seq<byte>` with no character encoding. A
  null string argument of writeString and PHP's implicit type coercions are
  not modelled. The nullable arguments of the other encoders are `Option`.
- `insert($buffer)`, `put($buffer)` and `replace($buffer, $length)` given another
  Buffer are modelled as taking that buffer's `toString()`, as
  testInsertFunctional does for insert.
- `__toString` debug formatting, `testBinaryFile` (it needs classes not part of
  this model), and `setUp`/`tearDown` are left out.
- Wire.WriteUTF16: `writeUTF16("")` is one zero unit, from `str_split("")`
  returning `[""]` in the PHP versions this code targets.
- Wire.WriteUTF: no error for texts of 65536 bytes or more, as in the code.
  The prefix wraps. A Java-style "too long" error is not modelled.
- BufferScenarios.ReplaceFunctional: the test asserts "123789" right after
  `replaceBoolean(true, 3)`. `writeBoolean` writes the byte 1, so the content
  is "123" + [1] + "789". The model proves that. The test's later steps
  agree with it.
- InsertScenario.InsertFunctional: the test's emoji text is any non-empty text
  under 65536 bytes. `str_rot13` of it is any text of the same length.
- The scenario methods are proved for any data of the literals' shape (the
  lengths the positions depend on), then applied to the literals. For
  testInsertFunctional the wrapper uses the test's own values.
