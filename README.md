# buffer-pack, modelled in Dafny

buffer-pack describes a binary record layout as a `Packer`: a list of named
fields, each bound to a codec (fixed-width integers in either byte order,
64-bit integers assembled from two 32-bit words, raw byte ranges of fixed or
computed length, fixed-count arrays of codecs or of nested Packers, and any
codec registered with `Packer.addCodec`). A Packer measures a record
(`size`), writes it into a new buffer (`pack`) and reads it back (`unpack`).
Codecs run against a `Context`: a buffer and a cursor (`offset`) that every
codec advances by the bytes it handled.

The model has two layers:

- **Pure codecs.** Every codec's `pack` is a function from a cursor state
  (`State(buf, pos)`) to a new state or an error. Every `unpack` is a function
  from the buffer and cursor to a decoded value and the new cursor. Every
  `size` is a function from the value to a byte count. Modules: `Values`,
  `Bytes`, `Integer`, `ByteRange` and `TestCodecs` for the leaf codecs, and
  `Codec` for arrays, nested Packers and records.
- **Imperative runtime (`Runtime`).**
  - `Context` is a class with the buffer as an `array` and a mutable cursor.
  - `Registry` holds `Packer.codecs` as a mutable map.
  - `Packer` holds its mutable field list.
  - Their loops over fields and array items are methods proved equal to the
    pure functions.

An independent reference encoding (`Codec.Encode`) and a domain of
well-formed records (`Codec.Conforms`) make round trips statable. `RoundTrip`
proves that size, pack and unpack agree with that encoding for every
conforming record. `Vectors` checks concrete byte strings from the
repository's own test suite.

Numbers are unbounded integers. The cursor is `At(i)` or `NaN`: JavaScript's
`offset += undefined` really happens in the variable-length buffer codec.
Errors that JavaScript throws are `Err(...)` results:

- `UnsafeInteger`: the 64-bit guard.
- `ValueOutOfRange`: Node's range check on `writeInt*`.
- `IndexOutOfRange`: a read or write past the end of the buffer.
- `NotAnObject`: a property read on `undefined`.
- `UnknownCodec`: calling a type name that was never registered.
- `Unmodelled`: JavaScript coercions the model does not follow.

## Model

| member | source | states |
|---|---|---|
| Values.Member | lib/index.js:49-55 | `obj[name]`: the field's value when present, `undefined` when absent, and a thrown error on `undefined` itself |
| Values.Index | lib/codecs/array.js:11 | `value[i]`: the item when in bounds, `undefined` past the end, and an error on `undefined` |
| Values.OutcomeOf | lib/index.js:16-22 | an operation completes exactly when its result is Ok, and otherwise fails with the same error |
| Values.SpliceThen | lib/codecs/array.js:10-17 | writing `a` and then `b` right after it equals writing `a + b` at once |
| Values.SliceThen | lib/codecs/array.js:21-27 | a window holding `a + b` holds `a` at its start and `b` right after it |
| Bytes.LittleValueOfBytes | lib/codecs/integer.js:12-16 | reading back the little-endian bytes written for `x < 256^w` gives `x` |
| Bytes.LittleBytesOfValue | lib/codecs/integer.js:12-16 | writing the value read from any byte string reproduces that string |
| Bytes.Reverse | lib/codecs/integer.js:81-89 | big-endian order is little-endian order reversed, byte by byte |
| Bytes.ReverseReverse | lib/codecs/integer.js:81-89 | reversing the byte order twice is the identity |
| Bytes.UnsignedRoundTrip | lib/codecs/integer.js:12-16 | in either byte order, reading back the bytes written for an unsigned value gives that value |
| Bytes.UnsignedOfValue | lib/codecs/integer.js:12-16 | in either byte order, every byte string is the encoding of the value read from it |
| Bytes.TwosComplement | lib/codecs/integer.js:12 | a signed value in range becomes a `w`-byte unsigned number, itself when non-negative and `v + 256^w` when negative |
| Bytes.SignedOf | lib/codecs/integer.js:16 | the signed reading of `w` bytes lies in `[-2^(8w-1), 2^(8w-1))` and maps back to the same bytes |
| Bytes.SignedOfTwos | lib/codecs/integer.js:12-16 | two's-complement decoding inverts encoding on the signed range |
| Integer.Resolve | lib/codecs/integer.js:11 | a defined value is used as given; `undefined` becomes the declared default; a codec made without options throws on `undefined` |
| Integer.PackInt | lib/codecs/integer.js:10-14 | a successful pack needs a numeric cursor and `w` bytes of room; it keeps the buffer length, advances the cursor by exactly `w` and leaves every byte outside `[offset, offset + w)` unchanged |
| Integer.UnpackInt | lib/codecs/integer.js:15-19 | a successful read advances the cursor by `w` and returns a number within the width's signed or unsigned range; a read past the end is an index error |
| Integer.IntRoundTrip | lib/codecs/integer.js:10-19 | for every in-range value, width, signedness and byte order, decoding the written bytes gives the value back |
| Integer.IntOfBytesInRange | lib/codecs/integer.js:15-19 | every 1-, 2- or 4-byte string decodes to an in-range value whose encoding is that string |
| Integer.IntPackWrites | lib/codecs/integer.js:10-14 | with room in the buffer, packing an in-range number writes exactly its encoding at the cursor and moves the cursor `w` bytes on |
| Integer.IntUnpackReads | lib/codecs/integer.js:15-19 | when the bytes at the cursor are a value's encoding, unpack returns that value and moves the cursor `w` bytes on |
| Integer.IntDefaultSubstitution | lib/codecs/integer.js:11 | packing `undefined` is packing the declared default |
| Integer.IntOutOfRange | lib/codecs/integer.js:12 | a number outside the width's range is rejected with a range error |
| Integer.IntBytes | lib/codecs/integer.js:12 | `write(U)Int<8w><e>` of an in-range value writes exactly `w` bytes; with `Integer.IntOfBytesInRange` and `Integer.IntRoundTrip` they read back as that value |
| Integer.IntOfBytes | lib/codecs/integer.js:16 | `read(U)Int<8w><e>` of `w` bytes is in `[0, 256^w)` unsigned and in `[-256^w/2, 256^w/2)` signed |
| Integer.Int64Bytes | lib/codecs/integer.js:27-41 | the 8 bytes hold the high word at the high-word offset (0 big-endian, 4 little-endian) and the low word `value >>> 0` at the other |
| Integer.Int64OfBytes | lib/codecs/integer.js:42-47 | `high * 2^32 + low` of any 8 bytes lies in `[0, 2^64)` unsigned and in `[-2^63, 2^63)` signed |
| Integer.TruncWord | lib/codecs/integer.js:59 | `(value / 2^32) >> 0` truncates toward zero: the floor for non-negative values, 0 for `(-2^32, 0)` and negative below that |
| Integer.LowWord | lib/codecs/integer.js:39 | `value >>> 0` is a 32-bit unsigned word |
| Integer.HighWord | lib/codecs/integer.js:38 | the high word written is a 32-bit unsigned word |
| Integer.PackInt64 | lib/codecs/integer.js:33-41 | a successful pack advances the cursor by exactly 8, keeps the buffer length and changes nothing outside the 8 bytes at the cursor |
| Integer.UnpackInt64 | lib/codecs/integer.js:42-47 | a successful read advances the cursor by 8 and returns a number, never negative for the unsigned codecs; a read past the end is an index error |
| Integer.SignedSplit | lib/codecs/integer.js:38-39 | for safe integers, `floor(value / 2^32)` fits a signed 32-bit word, and high word times `2^32` plus low word is the value |
| Integer.Int64RoundTrip | lib/codecs/integer.js:33-68 | for every safe integer (non-negative when unsigned) and either byte order, high times `2^32` plus low reads back the value |
| Integer.Int64PackWrites | lib/codecs/integer.js:33-41 | with room in the buffer, a safe integer is written as its 8-byte encoding at the cursor, which moves 8 bytes on |
| Integer.Int64UnpackReads | lib/codecs/integer.js:42-47 | 8 bytes holding a safe integer's encoding unpack to that integer |
| Integer.Int64Guard | lib/codecs/integer.js:35-37 | magnitudes above `2^53 - 1` throw "Unsafe integer"; `2^53 - 1` itself, and `-(2^53 - 1)` when signed, pack successfully |
| Integer.UnsignedNegative | lib/codecs/integer.js:56-67 | an unsigned 64-bit codec accepts a value in `(-2^32, 0)` and reads it back as `value + 2^32`, not as the value |
| Integer.UnsignedNegativeBytes | lib/codecs/integer.js:59-67 | when the high word is 0 and the low word is `value + 2^32`, the bytes read back as `value + 2^32` |
| Integer.UnsignedVeryNegative | lib/codecs/integer.js:59 | an unsigned 64-bit codec given a value at or below `-2^32` fails Node's range check on the high word |
| ByteRange.LengthOf | lib/codecs/buffer.js:9-12 | the length option as a number when fixed, and `undefined` when absent |
| ByteRange.Size | lib/codecs/buffer.js:25-30 | a fixed length is the size; a computed length measures the value's own length; measuring `undefined` throws |
| ByteRange.Start | lib/codecs/buffer.js:13 | the copy starts at the cursor, or at 0 when the cursor is `NaN` (`this.offset || 0`) |
| ByteRange.Advance | lib/codecs/buffer.js:14 | the cursor moves on by the length; `NaN` stays `NaN` |
| ByteRange.Copy | lib/codecs/buffer.js:13 | `value.copy(target, start, 0, end)` writes `min(end, |value|)` bytes from `start`, clamped to the buffer, and leaves every other byte unchanged |
| ByteRange.Slice | lib/codecs/buffer.js:21 | `buffer.slice(from, to)` is the bytes `[from, to)` when in bounds, and never longer than the buffer |
| ByteRange.Pack | lib/codecs/buffer.js:7-15 | packing keeps the buffer length, writes the value (or the default when `undefined`) from the cursor, and changes no byte outside the window |
| ByteRange.Unpack | lib/codecs/buffer.js:16-24 | unpacking returns bytes: the window `[offset, offset + length)` when it fits, and an empty slice at cursor `NaN` when the length is `undefined` |
| ByteRange.RoundTrip | lib/codecs/buffer.js:7-30 | when the declared length equals the value's length, size is that length, pack writes exactly the value and unpack returns it |
| ByteRange.CallbackSeesValue | lib/codecs/buffer.js:10-12 | a length callback that reads the record gets the packed value as `this`; returning `undefined` copies the whole value and leaves the cursor at `NaN`, while unpack, given the record, reads the intended window |
| ByteRange.FixedCopiesPrefix | lib/codecs/buffer.js:9-14 | with a fixed length, only the value's first `length` bytes are copied, yet the cursor always moves on by the declared length |
| TestCodecs.PackVarUint | test/test.js:4-17 | a successful pack took a non-negative number at a numeric cursor, kept the buffer's length and moved the cursor by exactly the `size` of the value |
| TestCodecs.VarUintSize | test/test.js:30-40 | 1 byte below 0xfd, 3 up to 0xffff, 5 up to 0xffffffff and 9 above that, and 9 for `undefined` |
| TestCodecs.UnpackVarUint | test/test.js:18-29 | a decoded lvaruint is a non-negative number, and the cursor moves forward but stays inside the buffer |
| TestCodecs.VarUintBytes | test/test.js:4-17 | the lvaruint wire form is never empty |
| TestCodecs.VarUintSizeIsLength | test/test.js:4-17 | `size` equals the length of the wire form for every safe non-negative value |
| TestCodecs.VarUintRoundTrip | test/test.js:3-41 | for every safe non-negative value, pack writes the wire form and moves the cursor past it, and unpack reads the value back from it |
| TestCodecs.MarkerRoundTrip | test/test.js:5-6 | a single-byte value is written as that byte and read back |
| TestCodecs.MarkedRoundTrip | test/test.js:7-12 | a marker byte followed by a little-endian integer is written in that order and read back as the integer |
| TestCodecs.ShortRoundTrip | test/test.js:7-9 | values 0xfd to 0xffff are 0xfd followed by two little-endian bytes, and read back |
| TestCodecs.LongRoundTrip | test/test.js:10-12 | values up to 0xffffffff are 0xfe followed by four little-endian bytes, and read back |
| TestCodecs.WideRoundTrip | test/test.js:13-16 | larger safe values are 0xff followed by a little-endian 64-bit word, and read back |
| TestCodecs.VarUintAcceptsLongForm | test/test.js:18-29 | unpack also accepts a non-minimal form (`fd0500` reads as 5), so the wire form is not canonical |
| TestCodecs.VarUintUndefined | test/test.js:4-17 | `undefined` is measured as 9 bytes, but packing it throws once it reaches the `uint64le` codec, which was made without options |
| TestCodecs.DefaultFallback | test/test.js:44 | the fallback is the declared default when truthy and 0xff otherwise, so it is always truthy |
| TestCodecs.PackDefault | test/test.js:46-48 | a successful pack writes one byte and moves the cursor by one |
| TestCodecs.UnpackDefault | test/test.js:49-51 | unpack returns the byte at the cursor and moves on by one |
| TestCodecs.DefaultZeroIsAbsent | test/test.js:47 | because the codec tests `value ||`, an explicit 0 packs exactly as an absent value: as the fallback byte |
| TestCodecs.DefaultRoundTrip | test/test.js:43-56 | every value in 1..255 is written as its byte and read back |
| Codec.Pack | lib/index.js:48-50 | packing any codec keeps the buffer length |
| Codec.PackItems | lib/codecs/array.js:8-18 | packing array items keeps the buffer length |
| Codec.PackElem | lib/codecs/array.js:12-16 | packing one item, with a codec or a nested Packer, keeps the buffer length |
| Codec.PackFields | lib/index.js:18-20 | packing the fields in order keeps the buffer length |
| Codec.Zeros | lib/index.js:17 | the fresh buffer has exactly the measured length |
| Codec.PackRecord | lib/index.js:16-22 | a packed record succeeds only when size succeeds, and is exactly `size(obj)` bytes long |
| Codec.Size | lib/codecs/integer.js:20-22 | integer codecs measure their width (8 for the 64-bit ones) and the test suite's `default` codec measures 1, whatever the value |
| Codec.SizeItems | lib/codecs/array.js:30-36 | an array of `count` integers of width `w` measures `count * w` bytes; measuring items of an absent array fails with a property read on `undefined` |
| Codec.SizeElem | lib/codecs/array.js:33 | an absent item of a Packer with at least one field, or an item of an array with no `type`, fails with a property read on `undefined` |
| Codec.SizeFields | lib/index.js:33-39 | no fields measure 0 bytes; measuring any field succeeds only on a record, and an absent record fails with a property read on `undefined` |
| Codec.UnpackElem | lib/codecs/array.js:22-26 | a Packer item reads back as a record, a nested array item as a list of exactly its count of items, and a missing `type` fails |
| Codec.Unpack | lib/codecs/array.js:19-29 | an unpacked array is a list of exactly `length` items |
| Codec.UnpackItems | lib/codecs/array.js:19-29 | the item loop returns a list of exactly `length` items |
| Codec.UnpackFields | lib/index.js:24-31 | unpacking the fields yields a record |
| Codec.UnpackRecord | lib/index.js:24-31 | `packer.unpack(buffer)` succeeds exactly when the fields unpack from offset 0 |
| Codec.Lookup | lib/index.js:49 | a record's field when present, and `undefined` when absent |
| Codec.FieldNames | lib/index.js:47-57 | every declared field's name is among the record's names |
| RoundTrip.SizeIsEncodedLength | lib/index.js:54-56 | for every conforming value, a codec's `size` is the length of its encoding |
| RoundTrip.SizeItemsIsEncodedLength | lib/codecs/array.js:30-36 | an array's size is the summed length of its items' encodings |
| RoundTrip.SizeElemIsEncodedLength | lib/codecs/array.js:33 | an item's size, through a codec or a nested Packer, is its encoding's length |
| RoundTrip.SizeFieldsIsEncodedLength | lib/index.js:33-39 | `packer.size` is the summed length of the fields' encodings |
| RoundTrip.PackWritesEncoding | lib/index.js:48-50 | packing any conforming value writes exactly its encoding at the cursor and moves the cursor past it |
| RoundTrip.PackItemsWritesEncoding | lib/codecs/array.js:8-18 | the array loop writes the items' encodings back to back |
| RoundTrip.PackItemHead | lib/codecs/array.js:11-16 | the item at the cursor is packed as the head of the remaining encoding |
| RoundTrip.PackItemsCons | lib/codecs/array.js:10-16 | one loop iteration: packing from item `k` is packing item `k` and then continuing from `k + 1` |
| RoundTrip.PackItemsChain | lib/codecs/array.js:10 | writing the head and then the rest is writing the whole remaining encoding |
| RoundTrip.PackElemWritesEncoding | lib/codecs/array.js:12-16 | an item, through a codec or a nested Packer, is written as its encoding |
| RoundTrip.FieldsNext | lib/index.js:48-53 | the next field reads `obj[name]`, conforms given the fields read so far, and its encoding heads the rest |
| RoundTrip.PackFieldsWritesEncoding | lib/index.js:18-20 | packing the fields from any point writes the remaining fields' encodings back to back |
| RoundTrip.PackFieldHead | lib/index.js:18-20 | the field at the cursor is packed as the head of the remaining encoding |
| RoundTrip.PackFieldsCons | lib/index.js:18-20 | one `forEach` step: packing from field `j` is packing field `j` and then continuing |
| RoundTrip.PackFieldsChain | lib/index.js:18-20 | writing the head field and then the rest is writing the whole remaining encoding |
| RoundTrip.PackItemsIgnoresTail | lib/codecs/array.js:10-11 | items beyond the declared length never affect what is packed |
| RoundTrip.ArrayDefaultInPackOnly | lib/codecs/array.js:9-33 | an array packs an absent value as its default, but measuring an absent array throws, because `size` does not apply the default |
| RoundTrip.UnpackReadsEncoding | lib/index.js:51-53 | reading any conforming value's encoding at the cursor returns the value and moves the cursor past it |
| RoundTrip.UnpackItemsReadsEncoding | lib/codecs/array.js:19-29 | the array loop reads back every item from back-to-back encodings |
| RoundTrip.UnpackItemHead | lib/codecs/array.js:21-26 | the item at the cursor is read from the head of the remaining encoding |
| RoundTrip.UnpackItemsCons | lib/codecs/array.js:21-26 | one loop iteration: reading item `k` and pushing it, then continuing from `k + 1` |
| RoundTrip.UnpackItemsChain | lib/codecs/array.js:21 | reading the head item and then the rest reads every remaining item |
| RoundTrip.UnpackElemReadsEncoding | lib/codecs/array.js:22-26 | an item, through a codec or a nested Packer, is read back from its encoding |
| RoundTrip.UnpackFieldsReadsEncoding | lib/index.js:26-30 | unpacking the fields from any point reads back the remaining fields into the record being filled |
| RoundTrip.UnpackFieldHead | lib/index.js:27-29 | the field at the cursor is read from the head of the remaining encoding into the record |
| RoundTrip.UnpackFieldsCons | lib/index.js:51-53 | one `forEach` step: `obj[name] = codec.unpack.call(this, obj)` and then continuing |
| RoundTrip.UnpackFieldsChain | lib/index.js:27-29 | reading the head field and then the rest reads every remaining field |
| RoundTrip.FilledAgrees | lib/index.js:26-30 | the record built field by field has the declared names and agrees with the source record on each |
| RoundTrip.FilledIsRecord | lib/index.js:26-30 | a record holding exactly the declared names is rebuilt in full by unpack |
| RoundTrip.RecordRoundTrip | lib/index.js:16-39 | for every conforming record: `size` is the encoding's length, `pack` returns exactly the encoding, and `unpack` of it returns the record |
| RoundTrip.FieldsTile | lib/index.js:16-22 | the encoding splits into each field's encoding in declaration order |
| Runtime.Context.constructor | lib/index.js:3-6 | a new context wraps the buffer with its cursor at offset 0 |
| Runtime.Context.Current | lib/index.js:3-6 | the context's state has the buffer's length |
| Runtime.Context.Commit | lib/codecs/integer.js:12-13 | a codec's result is stored into the buffer and cursor, or reported as failed |
| Runtime.Context.Write | lib/index.js:49 | `codec.pack.call(context, value)` leaves the buffer and cursor as the pure `pack` says, or fails with its error |
| Runtime.Context.WriteItems | lib/codecs/array.js:8-18 | the array pack loop, run on the context, ends in the state of the pure item fold |
| Runtime.Context.WriteElem | lib/codecs/array.js:12-16 | one item through a codec or a nested Packer's `pack(item, this)` on the shared context |
| Runtime.Context.WriteFields | lib/index.js:18-20 | the Packer's field loop, run on the context, ends in the state of the pure field fold |
| Runtime.Context.Read | lib/index.js:52 | `codec.unpack.call(context, obj)` returns what the pure `unpack` returns and moves the cursor where it says |
| Runtime.Context.ReadItems | lib/codecs/array.js:19-29 | the array unpack loop returns the pure item fold's list and cursor |
| Runtime.Context.ReadElem | lib/codecs/array.js:22-26 | one item through a codec or a nested Packer's `unpack(null, this)` on the shared context |
| Runtime.Context.ReadFields | lib/index.js:24-31 | the Packer's unpack loop fills a fresh record as the pure field fold does |
| Runtime.Materialise | lib/index.js:43-46 | a factory codec is called with the field's options: integers take `options.default`, byte ranges `options.length` and `options.default`, arrays `options.length`, `options.type` and `options.default`, the test suite's `default` codec its fallback from `options.default`; a plain codec is used as it is |
| Runtime.ArrayCount | lib/codecs/array.js:5-10 | a numeric `length` bounds the loop; an absent or computed one visits no items |
| Runtime.DeclaredDefault | lib/index.js:43-46 | for every options-taking built-in codec, a field declared with `default` packs `undefined` as the default |
| Runtime.IntCodecNamed | lib/codecs/integer.js:78-89 | each 8-, 16- and 32-bit codec is registered under its conventional name |
| Runtime.IntegerCodecsNamed | lib/codecs/integer.js:77-95 | all fourteen integer names map to the codec of their width, signedness and byte order |
| Runtime.Registry.constructor | lib/index.js:62-72 | after loading, the registry holds exactly the built-in integer, buffer and array codecs; the string codec that line 71 also registers is not part of this model, so declaring a `str` field fails with `UnknownCodec` |
| Runtime.Registry.AddCodec | lib/index.js:64-67 | registering a type name binds it to the codec and leaves every other name as it was |
| Runtime.Registry.RegisterIntegers | lib/codecs/integer.js:77-95 | the integer module adds its fourteen registrations on top of the existing ones |
| Runtime.Registry.RegisterTestCodecs | test/test.js:3-56 | the test suite registers `lvaruint` as a plain codec object and `default` as a factory |
| Runtime.Measure | lib/index.js:54-56 | measuring a codec computes its pure size |
| Runtime.MeasureItems | lib/codecs/array.js:30-36 | the array size loop sums the items' sizes, and the first error wins |
| Runtime.MeasureElem | lib/codecs/array.js:33 | an item's size through a codec or a nested Packer |
| Runtime.MeasureFields | lib/index.js:33-39 | the Packer's size loop sums the fields' sizes, and the first error wins |
| Runtime.Packer.constructor | lib/index.js:8-14 | a new Packer has no fields |
| Runtime.Packer.Declare | lib/index.js:41-60 | `packer[type](name, options)` appends one field bound to the registered codec applied to the options; an unregistered type throws and leaves the fields alone |
| Runtime.Packer.Size | lib/index.js:33-39 | `packer.size(obj)` is the pure field-size sum |
| Runtime.Packer.PackInto | lib/index.js:16-22 | `packer.pack(obj, context)` packs every field at the given context's cursor |
| Runtime.Packer.Pack | lib/index.js:16-22 | `packer.pack(obj)` returns a new buffer holding exactly the pure packed record, or fails with its error |
| Runtime.Packer.UnpackFrom | lib/index.js:24-31 | `packer.unpack(null, context)` returns the record read at the context's cursor and leaves the cursor after it |
| Runtime.Packer.Unpack | lib/index.js:24-31 | `packer.unpack(buffer)` returns the pure unpacked record |
| Vectors.PacksEncoding | test/test.js:75-78 | a conforming record whose encoding is a hex string passes the suite's pack-and-unpack assertion for that string |
| Vectors.CodecPacksEncoding | test/test.js:58-73 | a conforming value whose encoding is a hex string passes the suite's codec assertion: `size` is its length, `pack` over a buffer filled with `ff` yields exactly those bytes, and `unpack` reads the value back |
| Vectors.Int8Vector | test/test.js:89 | `int8` packs -1 as `ff` and reads it back |
| Vectors.UInt16Vectors | test/test.js:93-100 | `uint16be` and `uint16le` pack 500 as `01f4` and `f401` and read it back |
| Vectors.Int16LittleVector | test/test.js:117 | `int16le` packs -4324 as `1cef` and reads it back |
| Vectors.Int32MinusOneVectors | test/test.js:132-142 | `int32be` and `int32le` pack -1 as `ffffffff` and read it back |
| Vectors.Int64BigSafeMinVector | test/test.js:168 | `int64be` packs `-(2^53 - 1)` as `ffe0000000000001` and reads it back |
| Vectors.VarUintByteVectors | test/test.js:214-215 | `lvaruint` packs 0x00 and 0xfc as the single bytes `00` and `fc` |
| Vectors.VarUintShortLowVector | test/test.js:216 | `lvaruint` packs 0xfd as `fdfd00` |
| Vectors.VarUintShortMidVector | test/test.js:217 | `lvaruint` packs 0x100 as `fd0001` |
| Vectors.VarUintShortHighVector | test/test.js:218 | `lvaruint` packs 0xffff as `fdffff` |
| Vectors.VarUintLongLowVector | test/test.js:219 | `lvaruint` packs 0x10000 as `fe00000100` |
| Vectors.VarUintLongHighVector | test/test.js:220 | `lvaruint` packs 0xffffffff as `feffffffff` |
| Vectors.VarUintMaxVector | test/test.js:222 | `lvaruint` packs `2^53 - 1` as `ffffffffffffff1f00` |
| Vectors.FieldNamesOfList | lib/index.js:47-57 | the record names of a field list are exactly its fields' names |
| Vectors.Int16BigVector | test/test.js:251-256 | `int16be` packs -4324 as `ef1c` and reads it back |
| Vectors.Int32LittleVector | test/test.js:286-290 | `int32le` packs -1232321 as `3f32edff` and reads it back |
| Vectors.UInt64BigVector | test/test.js:146-149 | `uint64be` packs `2^53 - 1` as `001fffffffffffff` and reads it back |
| Vectors.Int64LittleVector | test/test.js:174-177 | `int64le` packs -500 as `0cfeffffffffffff` and reads it back |
| Vectors.UInt64UnsafeVector | test/test.js:146-152 | `uint64be` refuses `2^53` |
| Vectors.VarUintShortVector | test/test.js:460-470 | `lvaruint` packs 0x2345 as `fd4523` and reads it back |
| Vectors.VarUintWideVector | test/test.js:221 | a one-field Packer holding `lvaruint` packs `2^32` as `ff0000000001000000` and reads it back |
| Vectors.ByteWrite | lib/codecs/integer.js:10-14 | `uint8` writes one byte at the cursor and moves on by one |
| Vectors.ByteRead | lib/codecs/integer.js:15-19 | `uint8` reads the byte at the cursor |
| Vectors.DefaultsPresentVector | test/test.js:374-378 | fields with defaults pack `{foo: 1, bar: 2}` as `0102` and read it back |
| Vectors.DefaultsAbsentVector | test/test.js:379 | an empty record packs as the defaults `ccff` |
| Vectors.DefaultsUnpackVector | test/test.js:380 | `abcd` unpacks as `{foo: 0xab, bar: 0xcd}` |
| Vectors.VariableLengthPackVector | test/test.js:383-390 | `{len: 1, buf: [0]}` packs as `0100`, and the cursor ends at `NaN` because the length callback sees the buffer, not the record |
| Vectors.LengthFromRecord | test/test.js:383-390 | on unpack, the length callback sees the record read so far and takes its `len` |
| Vectors.VariableLengthUnpackVector | test/test.js:383-390 | `0100` unpacks as `{len: 1, buf: [0]}` |
| Vectors.ThirdLevel | test/test.js:401-402 | the innermost Packer encodes `{third: [a]}` as the single byte `a` |
| Vectors.SecondLevel | test/test.js:399-411 | the middle Packer encodes `{second: [{third: [a]}, {third: [b]}]}` as `a b` |
| Vectors.FirstLevel | test/test.js:394-426 | the outer array's three items encode as `010203040506` |
| Vectors.FirstRecord | test/test.js:394-426 | the nested record conforms and encodes as `010203040506` |
| Vectors.NestedArraysVector | test/test.js:394-427 | three levels of arrays of Packers pack as `010203040506` and read back |

## Left out

- The string codec (`lib/codecs/string.js`) is not part of this model. Neither are the test-suite vectors that use it (`str`, the complex example's strings).
- JavaScript coercions are not followed: a number written where bytes are expected, a numeric string, `NaN` or floating-point values given to an integer codec. These give `Err(Unmodelled)` or `Err(NotAnObject)` rather than what Node would do.
- Integer.UnpackInt64: returns `high * 2^32 + low` exactly. JavaScript rounds the sum to a double once it exceeds `2^53 - 1`, which a buffer not written by this library can make it do.
- Integer.PackInt64: at a `NaN` cursor, Node's behaviour depends on the version. The model reports `Err(Unmodelled)` for every integer codec at a `NaN` cursor.
- Runtime.Context.Write: after a codec throws, JavaScript may have written some bytes and moved the cursor. The model promises nothing about the context after a failed write. `Runtime.Packer.Pack` returns a failure instead of a half-written buffer.
- Runtime.Context.Read: after a codec throws part-way through, JavaScript may already have moved the cursor. For example, `lvaruint` reads its marker byte and then the wider read fails. The model promises nothing about the cursor after a failed read. `Runtime.Packer.Unpack` returns a failure instead of a partial record.
- Runtime.Packer.Pack: Node's `new Buffer(n)` hands out uninitialised memory. The model zero-fills it (`Codec.Zeros`). Every byte of a successful pack is overwritten, so only failed or length-clamped packs could see the difference.
- Runtime.Packer.Declare: a nested Packer used as an array `type` is captured as the list of fields it has when the array is declared. In JavaScript the array holds a reference, so fields declared on the inner Packer later would also be used. That aliasing is not modelled.
- Runtime.Packer.Declare: returns an outcome instead of `this`. Chained declarations are modelled as successive calls.
- `Packer()` called without `new`, `instanceof Packer` dispatch and the prototype methods that `addCodec` installs are JavaScript mechanics. They become the `Elem` datatype and the type-name argument of `Runtime.Packer.Declare`.
- TestCodecs.PackVarUint: `lvaruint` and `default` look up `Packer.codecs.uint8` and the other integer codecs at call time. The model binds them to the built-in codecs, so re-registering `uint8` after loading would change JavaScript's behaviour but not the model's.
- ByteRange.Unpack: a negative numeric length gives `Err(Unmodelled)`. In Node, `slice` with a negative end counts that end back from the buffer's end and still returns bytes, and `this.offset += length` moves the cursor back; neither is modelled.
- ByteRange.Pack: a negative numeric length gives `Err(IndexOutOfRange)`. Node's `copy` treats a negative source end differently from one version to another, and the cursor would move back; this is not modelled.
- ByteRange.Copy: a start at or past the end of the target copies nothing and leaves the buffer as it was, as current Node does. Older Node versions throw a `RangeError` there; that behaviour is not modelled.
- ByteRange.Unpack: `buffer.slice` returns a view sharing memory with the packed buffer. The model returns a copy, so later writes through either one are not reflected in the other.
- Integer.PackInt64: the 64-bit `size` always returns 8, so an unsafe integer is rejected only by `pack` (`Vectors.UInt64UnsafeVector`: size succeeds, pack fails).
- ByteRange.Size: with a callback length, `size` returns `value.length` without calling the callback; `pack` calls it with the value, not the record, as `this` (`ByteRange.CallbackSeesValue`, `Vectors.VariableLengthPackVector`).
- Runtime.ArrayCount: a fractional or negative numeric `length` (the loop would run `ceil(length)` or zero times) is not modelled. Array lengths are natural numbers.
- Error kinds are modelled, not the messages or exception classes JavaScript throws.
- The mocha harness, Node's `Buffer` implementation and module loading (`require`) are outside the model. The registrations the modules perform are modelled by `Runtime.Registry`.
