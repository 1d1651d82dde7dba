# decl — a Dafny model of the zero-copy declarative decoders

The `decl` crate decodes binary structures straight out of a byte slice.
A decoder takes a buffer and returns either an error or the decoded value
together with the rest of the buffer.

This project models the crate's core:

- **Primitive codecs** (`primitives.dfy`): the fixed-width integers, in big-endian by default.
- **Wrapper newtypes** (`primitives.dfy`): `Be*`, `Le*` and `Ne*`.
- **Tuples** (`tuples.dfy`): sequential composition of decoders.
- **Decode protocol and cursor** (`base.dfy`, `declarative.dfy`):
  - the two decode protocols (`Declarative` and `DeclarativeWithArgs`) and the bridges between them;
  - the `DeclRead` cursor over a byte slice;
  - the `Tag` validators.
- **Array and Slice views** (`arrays.dfy`, `array_iter.dfy`): the views and the array iterator.
- **Offset resolvers** (`offset.dfy`).
- **`Ignored` placeholder** (`ignored.dfy`): skips bytes.
- **A worked record** (`scenario.dfy`): the tag `"OTTO"`, a `u16` count and three `u16` items.

How the model is built:

- **Buffers** are `seq<byte>`, and decoded integers are mathematical integers within the Rust type's range.
- **Decoders** are functions `seq<byte> -> DeclResult<T>`, or `(seq<byte>, A) -> DeclResult<T>` for a decoder that takes an argument.
- **The cursor** (`Declarative.Cursor`) is a class whose `buf` field plays the role of `*self`.
- **The array iterator** (`ArrayIteration.ArrayIter`) is a class with the fields of `ArrayIter`. Its `Next` is proved against the functions `Arrays.Position`, `Arrays.Element` and `Arrays.Yields`.
- **Round trips:** decoding is tied to an encoder, `Primitives.Encode`, so that round-trip properties can be stated. The crate has no encoder of its own; `Encode` exists only to state what decoding recovers.

Behaviour worth knowing, taken from the code:

- `DeclRead::tag` returns the validator's result but never reassigns the cursor, so the cursor does not move past a tag. `Declarative.Cursor.ValidateTag` ensures `buf == old(buf)`.
- `Array::parse_with` and `Slice::parse_with` consume nothing: the remainder they return is their input. A field decoded after an array therefore starts at the array's first byte. The model keeps this behaviour.
- A tag mismatch is reported as `InvalidVersion`, the name the code uses. A shorter buffer is reported as `InsufficientBytes`.
- A primitive tag decodes a value but never compares it with the expected one (see Findings). `Declarative.Validate` and `Declarative.Cursor.ValidateTag` keep this behaviour; `Declarative.ValidateCorrected` is the comparing version, and `Declarative.CorrectionOnlyRejectsMismatches` states where the two differ.

## Model

| member | source | states |
|---|---|---|
| DeclBase.WithUnit | decl/src/declarative.rs:40-48 | for an argument-free decoder, `parse_with(buffer, ())` is `parse(buffer)` |
| DeclBase.DynamicSize | decl/src/declarative.rs:22-29 | the dynamic `size()` of any value of a statically sized type is the type's `SIZE` |
| DeclBase.DynamicSizeIsConsumed | decl/src/declarative.rs:22-29 | for a decoder that honours its `SIZE`, the dynamic `size()` of a decoded value is exactly the number of bytes its decode consumed |
| DeclBase.ExactWidthAdvances | decl/src/primitives.rs:20-27 | a decoder that honours its `SIZE` never rewinds: its remainder is a suffix of its input |
| Primitives.SizeOf | decl/src/primitives.rs:41-50 | `SIZE` is 1, 2, 4 or 8, and it is 1 exactly for `u8`/`i8` |
| Primitives.BigEndianValue | decl/src/primitives.rs:44-49 | a big-endian reading of `n` bytes is below 256^n |
| Primitives.LittleEndianValue | decl/src/primitives.rs:90-95 | a little-endian reading of `n` bytes is below 256^n |
| Primitives.LittleEndianIsReversedBigEndian | decl/src/primitives.rs:90-95 | the little-endian value of bytes is the big-endian value of the reversed bytes |
| Primitives.TwosComplement | decl/src/primitives.rs:12-14 | the signed reading lies in the signed range and is congruent to the unsigned reading modulo 256^n |
| Primitives.Read | decl/src/primitives.rs:41-50 | every `byteorder` read of a type gives a value in that type's range |
| Primitives.ReadU8 | decl/src/primitives.rs:8-10 | `read_u8` reads `buf[0]` and agrees with the general big-endian read |
| Primitives.ReadI8 | decl/src/primitives.rs:12-14 | `read_i8` is the two's-complement reinterpretation of `buf[0]`, in -128..127, and agrees with the general read |
| Primitives.ParsePrimitive | decl/src/primitives.rs:20-27 | fails with `InsufficientBytes` iff the buffer is shorter than `SIZE`; otherwise it returns the big-endian value in range, and the remainder is `buffer[SIZE..]` |
| Primitives.PrimitiveType | decl/src/primitives.rs:30-32 | a primitive's static `SIZE` is its width |
| Primitives.PrimitiveHonoursSize | decl/src/primitives.rs:20-32 | every primitive fails exactly on short buffers and consumes exactly `SIZE` bytes |
| Primitives.EncodeUnsigned | decl/src/primitives.rs:44-49 | specification inverse of the `BE::read_*` readers (the crate has no encoder): the encoding of an `n`-byte integer has `n` bytes |
| Primitives.Encode | decl/src/primitives.rs:41-50 | specification inverse of the primitive decoders (the crate has no encoder): the encoding of a value of a type has that type's `SIZE` bytes |
| Primitives.BigEndianOfEncode | decl/src/primitives.rs:44-49 | the big-endian reading inverts the encoding on `0..256^n` |
| Primitives.EncodeOfBigEndian | decl/src/primitives.rs:44-49 | the encoding inverts the big-endian reading on any bytes |
| Primitives.TwosComplementOfRemainder | decl/src/primitives.rs:45-49 | the signed reading of a signed value's remainder is the value itself |
| Primitives.ReadOfEncode | decl/src/primitives.rs:41-50 | reading the encoding of an in-range value gives the value back |
| Primitives.ParsePrimitiveOfEncode | decl/src/primitives.rs:20-27 | decoding an in-range value's encoding followed by anything gives back the value and exactly what followed |
| Primitives.EncodeOfParsePrimitive | decl/src/primitives.rs:20-27 | on success, the bytes consumed are exactly the encoding of the decoded value |
| Primitives.From | decl/src/primitives.rs:58-61 | `From<ty>` wraps the value unchanged |
| Primitives.ParseWrapper | decl/src/primitives.rs:64-73 | a wrapper fails with `InsufficientBytes` iff the buffer is shorter than the wrapped type's `SIZE`; otherwise it wraps an in-range value and leaves `buffer[SIZE..]` |
| Primitives.BeWrapperAgreesWithDefault | decl/src/primitives.rs:83-88 | `Be*` wrappers decode the same value and remainder as the unqualified type |
| Primitives.LeWrapperReadsReversed | decl/src/primitives.rs:90-95 | `Le*` wrappers over bytes `b` decode what the unqualified type decodes over `b` reversed, with the same remainder |
| Primitives.NeWrapperFollowsNative | decl/src/primitives.rs:97-102 | `Ne*` wrappers decode as the `Be*` or `Le*` wrapper of the target's byte order |
| Tuples.ParsePair | decl/src/primitives.rs:113-120 | a pair decodes left to right, the second item from the first's remainder; it returns the first error unchanged, and on success the remainder left by the second item |
| Tuples.ParseTriple | decl/src/primitives.rs:113-120 | the same for three items |
| Tuples.ParsePairOfExactWidths | decl/src/primitives.rs:113-120 | a pair of exactly sized decoders fails with `InsufficientBytes` iff the buffer is shorter than the two sizes together, and on success consumes exactly that many bytes |
| Declarative.Utf8Char | decl/src/declarative.rs:119 | one character's UTF-8 bytes number 1 to 4, and exactly 1 for ASCII |
| Declarative.Utf8 | decl/src/declarative.rs:119 | `as_bytes` has at least one and at most four bytes per character |
| Declarative.ValidateByteStr | decl/src/declarative.rs:126-137 | `[u8]` tag: `InsufficientBytes` iff the buffer is shorter than the literal; success iff the literal is a prefix; `InvalidVersion` on a mismatch with enough bytes; on success, literal ++ result == buffer |
| Declarative.ValidateStr | decl/src/declarative.rs:113-124 | the same, against the text's UTF-8 bytes |
| Declarative.ValidatePrimitiveAsWritten | decl/src/declarative.rs:140-152 | the primitive tag as written succeeds iff the buffer holds `SIZE` bytes, whatever they are, and leaves `buffer[SIZE..]` |
| Declarative.PrimitiveTagAcceptsAnyValue | decl/src/declarative.rs:144-146 | a `u16` tag of 1 accepts the bytes 00 02, which decode to 2 |
| Declarative.ValidatePrimitive | decl/src/declarative.rs:140-152 | the corrected primitive tag succeeds iff the buffer holds `SIZE` bytes that read as the expected value, and fails with `InsufficientBytes` iff it is short |
| Declarative.ValidatePrimitiveIsByteStr | decl/src/declarative.rs:126-152 | the corrected primitive tag is the `[u8]` tag of the expected value's encoding |
| Declarative.Validate | decl/src/declarative.rs:109-152 | `Tag::validate` as written: a successful validation returns a suffix of the buffer; `str` and `[u8]` tags are the prefix checks, and a primitive tag is the as-written check that never compares the value |
| Declarative.ValidateCorrected | decl/src/declarative.rs:109-152 | `Tag::validate` with primitive tags corrected to compare the value; `str` and `[u8]` tags unchanged |
| Declarative.CorrectionOnlyRejectsMismatches | decl/src/declarative.rs:144-146 | the corrected and as-written validators agree except exactly where a primitive tag finds `SIZE` bytes that read as another value; there the as-written one succeeds and the corrected one fails |
| Declarative.Cursor.constructor | decl/src/declarative.rs:82 | the cursor starts at the given buffer |
| Declarative.Cursor.Parse | decl/src/declarative.rs:83-90 | on success the cursor becomes the remainder and the value is returned; on failure the cursor is unchanged and the error is returned |
| Declarative.Cursor.ParseWith | decl/src/declarative.rs:92-99 | the same, for a decoder that takes an argument |
| Declarative.Cursor.ParseArray | decl/src/declarative.rs:59-64 | `parse_array(len)` is `parse_with::<Array>((len, ()))`: the array of the current buffer, with the cursor unmoved |
| Declarative.Cursor.ParseArrayWith | decl/src/declarative.rs:66-75 | `parse_array_with(len, a)` is `parse_with::<Array>((len, a))`, with the cursor unmoved |
| Declarative.Cursor.ValidateTag | decl/src/declarative.rs:101-106 | `tag` returns the as-written validator's result on the current buffer (primitive tags not compared) and leaves the cursor where it was |
| Arrays.ParseArray | decl/src/array.rs:41-54 | `Array::parse_with` never fails, consumes nothing, and stores the buffer, `arguments.0` and `arguments.1` |
| Arrays.ParseSlice | decl/src/array.rs:142-154 | `Slice::parse_with` never fails, consumes nothing, and stores the buffer and the argument |
| Arrays.ArraySize | decl/src/array.rs:62-64 | `size()` is 0 for an empty array or zero-sized items, and otherwise at least the item size and at least the length |
| Arrays.Element | decl/src/array.rs:110 | one decoding step succeeds iff the item decoder does |
| Arrays.Yields | decl/src/array.rs:104-112 | `n` decoding calls of `next` produce exactly `n` results |
| Arrays.YieldsAt | decl/src/array.rs:104-112 | result `i` is the item decoded at the internal buffer reached after `i` calls |
| Arrays.FirstSucceedYieldsSuccess | decl/src/array.rs:104-112 | when the first `n` items succeed, each of the first `n` results is a success |
| Arrays.PositionOfExactItems | decl/src/array.rs:104-112 | with exactly sized items and earlier successes, the internal buffer before item `i` is the captured buffer from `i * SIZE` |
| Arrays.ElementAtOffset | decl/src/array.rs:104-112 | item `i` is the item decoded at offset `i * SIZE` of the captured buffer |
| Arrays.IterationConsumesSize | decl/src/array.rs:62-64 | when every item succeeds, iterating consumes exactly `size()` bytes |
| Arrays.AllSucceedIffLongEnough | decl/src/array.rs:104-112 | for items that fail exactly on short buffers, all `n` items succeed iff the captured buffer holds `n * SIZE` bytes |
| ArrayIteration.ArrayIter.constructor | decl/src/array.rs:75-83 | `into_iter` copies buffer, length and argument, and starts with `cursor` 0 |
| ArrayIteration.ArrayIter.Next | decl/src/array.rs:104-112 | `None` iff `length <= cursor`, with nothing changed; otherwise `cursor` grows by one and the item is decoded at the internal buffer, which moves to the item's remainder only on success; the iterator's invariant is kept |
| ArrayIteration.Collect | decl/src/array.rs:104-112 | iterating an array until `next` returns `None` yields exactly `length` results, the decodes `Yields` describes |
| Offsets.OffsetPrimitive | decl/src/offset.rs:70-75 | every offset reads an unsigned integer |
| Offsets.OffsetSize | decl/src/offset.rs:60-65 | `SIZE` of `Offset8`/`16`/`32`/`64` is the width of the offset integer, whatever the item |
| Offsets.ParseOffset | decl/src/offset.rs:37-57 | fails with `InsufficientBytes` on a short buffer or an offset past the reference's end; otherwise the view is the reference from the offset on, the nested argument is kept, and the remainder is the buffer after the offset integer |
| Offsets.OffsetAtEndIsEmpty | decl/src/offset.rs:43-47 | an offset equal to the reference's length is accepted and gives an empty view |
| Offsets.OffsetRemainderIgnoresReference | decl/src/offset.rs:41-56 | the remainder does not depend on the reference region, and a longer reference accepts whatever a shorter one does |
| Offsets.ParseOffsetOfEncode | decl/src/offset.rs:41-56 | an encoded offset within the reference lands at that position, and the remainder is what followed the offset |
| Skipping.IgnoredSize | decl/src/ignored.rs:33-38 | `Ignored<T>::SIZE` is `T::SIZE` |
| Skipping.ParseIgnored | decl/src/ignored.rs:24-30 | fails with `InsufficientBytes` iff the buffer is shorter than `T::SIZE`; otherwise it consumes exactly `T::SIZE` bytes |
| Skipping.IgnoredHonoursSize | decl/src/ignored.rs:24-38 | `Ignored<T>` honours its own `SIZE` |
| Skipping.IgnoredDependsOnlyOnLength | decl/src/ignored.rs:24-30 | the outcome depends only on the buffer's length and `T::SIZE`, never on the bytes or on `T`'s decoder |
| Skipping.IgnoredPrimitiveAgrees | decl/src/ignored.rs:24-30 | for a primitive `T`, `Ignored<T>` succeeds exactly when `T::parse` does, with the same remainder and error |
| Skipping.IgnoredAgreesWithExactWidth | decl/src/ignored.rs:24-30 | the same for any `T` whose decoder honours its `SIZE` |
| PrimitiveArrays.PrimitiveItem | decl/src/declarative.rs:40-48 | a primitive used as an array item decodes as the primitive itself |
| PrimitiveArrays.PrimitiveItemIsExact | decl/src/primitives.rs:20-27 | a primitive item consumes exactly `SIZE` bytes and fails exactly on shorter buffers |
| PrimitiveArrays.PrimitiveArrayYields | decl/src/array.rs:104-112 | over a buffer of at least `n * SIZE` bytes, item `i` of a primitive array is the value read at offset `i * SIZE` |
| PrimitiveArrays.PrimitiveArrayConsumes | decl/src/array.rs:104-112 | after `n` items the iterator's buffer is at offset `n * SIZE` |
| PrimitiveArrays.ReadU16Bytes | decl/src/primitives.rs:44 | a big-endian `u16` is `hi * 256 + lo` |
| PrimitiveArrays.OttoTag | decl/src/declarative.rs:113-124 | the tag `"OTTO"` matches the record and leaves the 8 bytes after it |
| PrimitiveArrays.OttoCount | decl/src/primitives.rs:20-27 | the count field reads 3 and leaves the 6 item bytes |
| PrimitiveArrays.OttoItems | decl/src/array.rs:104-112 | an array of three `u16` over the item bytes yields 1, 2, 3 and uses up the bytes |

## Left out

- Debug formatting (`fmt::Debug` impls): output only, no decoding logic.
- Procedural derive macros (`decl_derive`), the crate root `lib.rs` and the `error` module's other variants are not part of this model.
- Lifetimes, `PhantomData` and the type-level plumbing of the traits: buffers are plain sequences, and a type's decoder is passed as a function.
- Arrays.ArraySize: does not model `usize` overflow in `Item::SIZE * length`, because sizes are unbounded `nat`.
- Offsets.ParseOffset: does not model the truncating `u64 as usize` cast on 32-bit targets, because offsets are unbounded.
- Tuples.ParsePair: only arities 2 and 3 are modelled (`ParsePair`, `ParseTriple`); the macro repeats the same pattern up to 12.
- Primitives.ParseWrapper: the target's native byte order for `Ne*` wrappers is a parameter, not a fixed platform.
- Declarative.Utf8: `str::as_bytes` is modelled by an explicit UTF-8 encoder of Dafny's characters.
- `ArrayIter` keeps `Item::Argument: Clone`; the model passes the same argument value to every item, which is what `clone` gives.

## Findings

| source | as written | input that shows it | evidently intended | confidence | as-written member | corrected member |
|---|---|---|---|---|---|---|
| decl/src/declarative.rs:144-146 | a primitive tag decodes a value of the right width and discards it, so it accepts any bytes of that width | `u16` tag 1 against the bytes 00 02: accepted, though they decode to 2 | accept only bytes that decode to the expected value, otherwise `InvalidVersion`, like the `str` and `[u8]` tags | not executed | Declarative.PrimitiveTagAcceptsAnyValue | Declarative.ValidatePrimitiveIsByteStr |
