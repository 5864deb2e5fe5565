# dataclass_struct codec, in Dafny

This project models the codec that the `dataclass_struct` decorator adds to a
dataclass. The decorator gives the class three operations:

- `to_buffer`: write each field in declaration order into one flat byte string;
- `from_buffer`: read the fields back from a buffer at an offset, and return the
  offset after the last byte consumed;
- `instance_from_buffer`: build a default instance and read it from offset 0.

A field takes part when it has a `STRUCT_TYPE` layout token, when its value is
another decorated instance, or when it is declared as a list of such instances.
Fields of type `str` go through the field's own `encoding` if it has one, and
through the class's `use_encoding` (default `utf_8`) otherwise. The text is
encoded before packing. When reading, trailing NULs are stripped from the
decoded text.

The modules follow the program's structure:

- `Results`: `Option`, `Result`, and the errors the code can raise.
  - `BufferUnderflow`, `ItemCount` and `OutOfRange` are `struct.error`. `WrongType` is the `struct.error` of packing a value of the wrong kind for its code, and also the `AttributeError` that `enc_str` / `dec_str` meet when `.encode` / `.decode` is called on a value that is not str / not bytes.
  - `MissingItem` is the `IndexError` of `raw_result[0]` on an empty tuple.
  - `NotIterable` is `*value` or `for item in value` on a non-iterable.
  - `UnknownEncoding`, `TextEncodeError` and `TextDecodeError` are the codec errors.
- `Binary`: bytes, little-endian unsigned and two's complement 32-bit integers,
  and `Fit`, which cuts or zero-pads to a slot width.
- `Layout`: a layout token as byte order, code (`i`, `I`, `f`, `Ns`) and repeat
  count, and the token's width (`struct.calcsize`).
- `Values`: record instances as trees. A `Field` is a name, a declared type, the
  metadata and the current value. A `Record` is a `use_encoding` and its fields.
- `Packing`: the part of `struct.pack` / `struct.unpack_from` the codec uses.
- `Transcoder`: `enc_str` / `dec_str`, meaning encoding precedence, text codecs
  and NUL stripping.
- `Codec`: `to_buffer` (`Encode`), `from_buffer` (`Decode`),
  `instance_from_buffer` (`InstanceFromBuffer`), and the wire width of a record.
- `Composition`: how encodings and decodings of fields, nested records and
  record lists fit together (concatenation order, offsets, locality).
- `RoundTrip`: `instance_from_buffer(to_buffer(r))` for every record tree r whose default instance matches it (`RecordsMatch`: same fields, records where r has records, record lists pre-sized like r's) and whose text fields fit their slots (`TextsRestore`).
- `Examples`: the classes of the repository's unit tests, as concrete records.

Text codecs are a parameter: a `Registry` maps an encoding name to a pair of
partial encode/decode functions. `Examples` uses a registry that knows only
Python's strict `ascii` codec.

## Model

| member | source | states |
|---|---|---|
| `Values.DataclassStruct` | dataclass_struct.py:126-136 | Decorating a class keeps its fields. The record-level encoding is `utf_8` unless `use_encoding` is given, and then it is that name. |
| `Layout.TokenWidthIsProduct` | dataclass_struct.py:68 | A token's width, the amount the offset advances by (`calcsize`), is its count times its code's width. |
| `Binary.FromLEToLE` | dataclass_struct.py:59 | Reading k little-endian bytes gives back the unsigned value that was written into them. |
| `Binary.ToLEFromLE` | dataclass_struct.py:93-99 | Writing the value read from k bytes reproduces those bytes, so the little-endian reading is one-to-one. |
| `Binary.SignedBitsRoundTrip` | dataclass_struct.py:59 | Two's complement is a bijection between signed 32-bit integers and 32-bit patterns, in both directions. |
| `Binary.Fit` | dataclass_struct.py:98-99 | An `Ns` slot holds exactly n bytes: the value's first bytes, then zeros past its end. |
| `Packing.ArrangeInvolutive` | dataclass_struct.py:59 | Switching byte order twice is the identity, so `>` reads what `>` wrote. |
| `Packing.PackCode` | dataclass_struct.py:98-99 | A packed item is exactly its code's width. `i` packs exactly the integers in [-2^31, 2^31), `I` exactly those in [0, 2^32), and other integers fail with `OutOfRange`; `f` packs exactly floats and `Ns` exactly bytes; a value of the wrong kind fails with `WrongType`. |
| `Packing.PackThenUnpackCode` | dataclass_struct.py:59 | Unpacking a packed item gives the item back. Bytes come back cut or zero-padded to the slot. |
| `Packing.UnpackThenPackCode` | dataclass_struct.py:93-99 | Packing an unpacked item reproduces the bytes it was read from. |
| `Packing.PackThenUnpackItems` | dataclass_struct.py:61 | Unpacking a packed run of items gives every item back in order, each in the form its slot stores. |
| `Packing.UnpackThenPackItems` | dataclass_struct.py:93-94 | Packing a run of unpacked items reproduces the bytes it was read from. |
| `Packing.PackToken` | dataclass_struct.py:93-94 | `struct.pack` succeeds exactly when it gets the token's item count of values that are each packable, and then writes exactly the token's width. With the right count, a failure is the error of the first unpackable value. |
| `Packing.PackItemsSucceeds` | dataclass_struct.py:93-94 | A run of values packs exactly when every value in it is packable. |
| `Packing.PackItemsFirstFailure` | dataclass_struct.py:93-94 | A run that fails to pack fails with the error of its first unpackable value, every earlier value being packable. |
| `Packing.PackTokenCountMismatch` | dataclass_struct.py:93-94 | A list whose length differs from the token's count fails with a count error naming both numbers. It fails with no other error, and only in that case. |
| `Packing.PackSingle` | dataclass_struct.py:98-99 | A one-item token packs the bytes of its single value, so a scalar field is written as its own encoding. |
| `Packing.UnpackToken` | dataclass_struct.py:59 | `unpack_from` succeeds exactly when the token's width fits past the offset. It returns the token's count of plain items, and fails with an underflow otherwise. |
| `Packing.PackThenUnpackToken` | dataclass_struct.py:57-61 | A list token written with its exact item count reads back element-wise, wherever its bytes sit in the buffer. |
| `Transcoder.ResolveEncoding` | dataclass_struct.py:31-34 | A field's non-empty `encoding` wins over the record's `use_encoding`. Without one, the record's encoding applies. |
| `Transcoder.StripNul` | dataclass_struct.py:35 | `rstrip('\0')` returns a prefix with no trailing NUL. Everything it removed was NUL. |
| `Transcoder.StripNulPadded` | dataclass_struct.py:35 | Stripping NULs from text padded with NULs gives back the text, if it did not already end in a NUL. |
| `Transcoder.EncodeText` | dataclass_struct.py:37-41 | `enc_str` succeeds exactly on text whose encoding is known and whose encoder accepts it, and returns the encoder's bytes. A non-text value, an unknown encoding and a rejected text each fail with their own error. |
| `Transcoder.DecodeText` | dataclass_struct.py:31-35 | `dec_str` succeeds exactly on bytes whose encoding is known and whose decoder accepts them, and returns the decoder's text with its trailing NULs stripped. A non-bytes value, an unknown encoding and rejected bytes each fail with their own error. |
| `Transcoder.TextSlotRoundTrip` | dataclass_struct.py:64-65 | For a codec whose NUL padding decodes to NUL characters, text that fits its slot and does not end in NUL reads back as itself. |
| `Transcoder.AsciiIsPadTransparent` | dataclass_struct.py:35 | Zero bytes after an ASCII encoding decode to NUL characters after the text. |
| `Codec.Decode` | dataclass_struct.py:43-75 | `from_buffer` keeps `use_encoding` and the number of fields. |
| `Codec.DecodeTokened` | dataclass_struct.py:57-68 | A token-carrying field reads only when its token's width fits past the offset. A buffer that is too short fails with an underflow, and the value read is never a record. |
| `Codec.DecodeItem` | dataclass_struct.py:70-73 | A list item is read in place when it is a record and left alone otherwise, at the same offset. |
| `Codec.InstanceFromBuffer` | dataclass_struct.py:110-119 | `instance_from_buffer` succeeds exactly when reading the default instance at offset 0 succeeds, and returns that instance. The offset is dropped. |
| `Composition.JoinAssociative` | dataclass_struct.py:90 | Appending encodings one after another does not depend on grouping, and the first failure wins. |
| `Composition.EncodeFieldsSplit` | dataclass_struct.py:87-104 | The encoding of a range of fields is the encoding of its first part followed by that of its second part. |
| `Composition.EncodeFieldsAt` | dataclass_struct.py:87-104 | Field i's bytes sit between the bytes of the fields before it and after it, so wire order is declaration order. |
| `Composition.EncodeFieldsFails` | dataclass_struct.py:87-104 | `to_buffer` succeeds exactly when every field does. On failure, the error is that of the first failing field, and all earlier fields encoded. |
| `Composition.EncodeSkipsIgnored` | dataclass_struct.py:87-106 | A field with no token that is neither a record nor a list contributes nothing: dropping such fields leaves the encoding unchanged. |
| `Composition.EncodeWidth` | dataclass_struct.py:79-106 | An encoded record is exactly as long as its wire width: the sum of its tokens' widths, with nested records counted recursively. |
| `Composition.DecodeAdvance` | dataclass_struct.py:75 | `from_buffer` returns the start offset plus the record's width. It reads nothing past the buffer, and the record read back has the same width. |
| `Composition.DecodeUnderflow` | dataclass_struct.py:59 | Reading a record fails when the buffer is shorter than the record's width past the offset. |
| `Composition.DecodeFieldsAt` | dataclass_struct.py:52-68 | Field i is read at the start offset plus the widths of the fields before it. Its result is field i of the decoded record, and reading goes on after its width. |
| `Composition.DecodeKeepsDeclarations` | dataclass_struct.py:65-67 | `from_buffer` writes field values only. Names, declared types, metadata and the record's encoding stay as they were. |
| `Composition.DecodeKeepsIgnored` | dataclass_struct.py:52-73 | A field the codec skips keeps its default value through `from_buffer`. |
| `Composition.DecodeTokenedAdvance` | dataclass_struct.py:68 | A token-carrying field that is not a record moves the offset on by exactly its token's width, which fits in the buffer. |
| `Composition.NestedEncoding` | dataclass_struct.py:89-90 | A record-valued field is written as the child's own encoding, between the bytes of the parent's earlier and later fields. |
| `Composition.NestedDecoding` | dataclass_struct.py:54-56 | A record-valued field is read by the child from the same buffer at the field's offset. The parent's next field is read at the offset the child returns. |
| `Composition.ItemDecodedAt` | dataclass_struct.py:69-73 | Item k of a list without a token is read in place, at the list's offset plus the widths of the items before it, if it is a record. Otherwise it is left unchanged. |
| `Composition.ListOfRecordsDecoding` | dataclass_struct.py:69-73 | A list of records without a token reads as many children as it already holds, in order, and adds none. An empty list stays empty and consumes nothing. |
| `Composition.ChangeOneField` | dataclass_struct.py:86-106 | Replacing one field's value changes only that field's bytes. The bytes before and after it are the same. |
| `RoundTrip.TokenedRoundTrip` | dataclass_struct.py:57-67 | A token-carrying field reads back from its own bytes as written: lists element-wise, text as itself, bytes fitted to the slot. |
| `RoundTrip.RecordRoundTrip` | dataclass_struct.py:43-75 | A record's encoding, read anywhere in a buffer into a matching default instance, reproduces every written value. Skipped fields keep their defaults, and reading ends right after the encoding. |
| `RoundTrip.InstanceRoundTrip` | dataclass_struct.py:110-119 | `instance_from_buffer(to_buffer(r))` with a matching default instance succeeds and reproduces r's written values. |
| `Examples.SimpleModelEncoding` | test_dataclass_struct.py:88-90 | `SimpleTestModel("Name", 3.14, 42, 37)` encodes to `c3 f5 48 40 2a 00 00 00`. The name and `no_struct` are not written. |
| `Examples.SimpleModelRoundTrip` | test_dataclass_struct.py:93-99 | Any `SimpleTestModel` with a 32-bit integer reads back into a default instance with its float and integer, and default name and `no_struct`. |
| `Examples.SimpleModelReadBack` | test_dataclass_struct.py:95-96 | The test's buffer reads into a default `SimpleTestModel` as float 3.14 and integer 42. |
| `Examples.ListTestCountMismatch` | test_dataclass_struct.py:151-154 | A `ListTest` with four or two floats for `<fff` fails with a count error. |
| `Examples.ListTestRoundTrip` | test_dataclass_struct.py:148-157 | A `ListTest` that encodes reads back into a default instance whose lists are empty in the model, with both lists exactly as written. |
| `Examples.EmptyRecordListStaysEmpty` | test_dataclass_struct.py:185-187 | `DataclassListTest.instance_from_buffer` on any buffer of at least four bytes gives exactly the signed little-endian integer of those bytes and an empty record list. |
| `Examples.NestedTestRoundTrip` | test_dataclass_struct.py:159-169 | A `NestedDataclassStruct` reads back into a default instance with its first integer, the child's float and integer, and its last integer. |
| `Examples.AsciiSlotRoundTrip` | test_dataclass_struct.py:136-140 | ASCII text that fits a slot and does not end in NUL reads back as itself. |
| `Examples.OverrideWins` | test_dataclass_struct.py:48-54 | In `DefaultEncodingTest`, `to_buffer` looks up the third field's own name "utf-16", not the class's "ascii", so with only ascii known it fails on that name after the first two fields encode. |
| `Examples.AsciiStringsRoundTrip` | test_dataclass_struct.py:136-141 | Under `use_encoding="ascii"`, a 16s bytes field reads back zero-padded to 16 bytes, and a 16s text field reads back as written. |

## Left out

- `compiled=True` mode: the decorator in this source accepts only `use_encoding`, so there is no compiled codec to model.
- IEEE-754 floats: an `f` item is an opaque 32-bit pattern. Python's conversion of a float (or an integer) to single precision when packing is not modelled, so `f` accepts only a `Float` value.
- Real text codecs (utf-8, utf-16 with its BOM): they are a parameter (`Registry`). Only strict ASCII is given concretely, so the utf-16 bytes of the tests are not reproduced.
- Python reflection (`dataclasses.fields`, `hasattr(..., 'to_buffer')`, `__dict__`, `setattr`): replaced by the explicit `Field`/`Record` tree. A value "has `to_buffer`" exactly when it is a `Rec`.
- Format-string parsing: a token is one code repeated (`<fff`, `16s16s16s`, `<iiii`). Mixed-code tokens and native alignment padding are not modelled, and native byte order is taken as little-endian. An empty format string is an absent token.
- Codes other than `i`, `I`, `f` and `Ns` (`b`, `h`, `q`, `d`, `?`, …) are not modelled.
- `*value` on a list-declared token field whose value is bytes or str: Python would unpack its elements. The model fails with `NotIterable` for any non-list value.
- Mutation: `from_buffer` writes fields one by one, so a failure leaves earlier fields written. The model returns a new record or an error, and the partially written instance is not modelled. Aliasing is not modelled either: an object that appears twice in one record tree (as two list items, or as a field and an item) is modelled as independent copies, whereas Python reads into the one object twice, so the later read wins for both places. `Composition.ListOfRecordsDecoding`, `Composition.ItemDecodedAt` and `RoundTrip.RecordRoundTrip` assume the objects of a tree are distinct. A default instance shared between objects is likewise not modelled.
- `Codec.DecodeItems`: its own contract states only the length. What each item becomes is stated by `Composition.ItemDecodedAt` and `Composition.ListOfRecordsDecoding`.
- `Packing.PackCode`: an `Ns` value longer than n bytes is silently cut to n bytes, as CPython's `struct.pack` does; no size error is raised.
- `from_buffer` with a negative offset (CPython counts it from the end of the buffer) is not modelled; offsets are `nat`.
- `setup.py` packaging and the unit-test runner.
