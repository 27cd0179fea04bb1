# cbor_lite: a verified model of the codec core

`cbor_lite` is a small CBOR codec (RFC 8949). It has two halves:

- **The decoder** (`src/de.rs`) is a recursive-descent `Deserializer` over a byte reader. `parse_value` reads a header byte, splits it into a 3-bit major type and a 5-bit additional-type field, and dispatches:
  - major type 0 is an integer, either immediate or with a 1-, 2- or 4-byte big-endian follow-up;
  - 2 is a byte string, 3 is text;
  - 4 is an array, 5 is a map built in a `BTreeMap` keyed by text;
  - 7 is a simple value, where only 22 (`null`) is known.
- **The encoder** (`src/ser.rs`) is a `VecSerializer`. Its `Serializer` operations append headers and payloads to an output vector. `encode_unsigned` writes the shortest header for an argument of at most 255.

The model has one module per concern:

| file | module | contents |
|---|---|---|
| `wrappers.dfy` | `Wrappers` | `Result` and `Outcome`, for the source's aborts |
| `bytes.dfy` | `BytesUtil` | bytes, header split and join, UTF-8 well-formedness |
| `values.dfy` | `Values` | `Value`, `Entry`, `Error`; the ordered map (`BTreeMap`) as a strictly sorted association list |
| `grammar.dfy` | `Grammar` | the decoder as functions of (input, cursor), and what they promise |
| `de.dfy` | `De` | the `Deserializer` class: a cursor the methods advance, each method proved equal to its `Grammar` function |
| `ser.dfy` | `Ser` | `EncodeUnsigned`, `Encode`, and the `VecSerializer` class with an append-only `output` |
| `roundtrip.dfy` | `RoundTrip` | when encoding succeeds, the round trip, where it ends, canonical maps |
| `vectors.dfy` | `Vectors` | the byte vectors of both files' unit tests |

The decoder is modelled **as written**. Only major type 0 resolves its additional-type field through follow-up bytes. Types 2, 3, 4, 5 and 7 take the raw 5-bit field as the length, count or code, and `read_additional_type` is never called. The encoder writes a length of 24..255 with a follow-up byte, which the decoder then takes as part of the payload. `RoundTrip.DecodeEncode` proves the round trip for values whose lengths and counts are at most 23 and whose integers are at most 255. Longer values do not come back in general: `RoundTrip.LongBytesComeBackShifted` shows 24 zero bytes coming back shifted. A few do come back by coincidence, for example 24 bytes of value 24 (`RoundTrip.TwentyFourComesBack`), so that range is sufficient, not necessary.

## Model

| member | source | states |
|---|---|---|
| BytesUtil.MajorType | src/de.rs:50 | the major type of a header byte is below 8 |
| BytesUtil.MajorTypeIsShift | src/de.rs:50 | the major type is the bit operation `header >> 5` |
| BytesUtil.AdditionalType | src/de.rs:51 | the additional type of a header byte is below 32 |
| BytesUtil.AdditionalTypeIsMask | src/de.rs:51 | the additional type is the bit operation `header & 0x1f` |
| BytesUtil.Concat | src/ser.rs:47-48 | the header built from a major type and an additional type splits back into exactly those two fields |
| BytesUtil.ConcatIsShiftOr | src/ser.rs:47-48 | joining is the bit operation `mt << 5 \| ai` |
| BytesUtil.SplitConcat | src/de.rs:49-51 | splitting any header byte and joining the fields gives the byte back |
| BytesUtil.ValidUtf8 | src/de.rs:100-102 | the UTF-8 check of `to_string`; no contract of its own, its meaning is stated by the three lemmas below |
| BytesUtil.AsciiIsValidUtf8 | src/de.rs:100-102 | text made only of ASCII bytes is accepted |
| BytesUtil.ValidUtf8Concat | src/de.rs:100-102 | two accepted texts side by side are accepted |
| BytesUtil.Utf8Examples | src/de.rs:100-102 | a lone continuation byte, an overlong form and an encoded surrogate are rejected; two- and four-byte characters, up to U+10FFFF, are accepted |
| Values.Insert | src/de.rs:116 | `BTreeMap::insert` leaves the new binding in the map and adds no other entry |
| Values.InsertUpdates | src/de.rs:116 | inserting changes the bindings at the key and nowhere else |
| Values.InsertKeepsSorted | src/de.rs:116 | inserting keeps the keys strictly ascending |
| Values.LessTotal | src/de.rs:110 | key order is total and asymmetric: two distinct keys are ordered one way and not the other |
| Values.LessTransitive | src/de.rs:110 | key order is transitive |
| Values.SortedUnique | src/de.rs:110 | two sorted maps with the same bindings are the same list, so map equality is equality of bindings |
| Values.FromPairs | src/de.rs:110-119 | the map built from wire pairs has ascending keys and holds only entries taken from the pairs |
| Values.FromPairsBindings | src/de.rs:110-119 | the map built from pairs binds exactly what applying the pairs in order binds |
| Values.LastWins | src/de.rs:112-117 | a key occurring more than once keeps the value of its last pair |
| Values.FromPairsOrderIndependent | src/de.rs:109-120 | pairs with distinct keys build the same map in any wire order |
| Values.DistinctKeysPermuted | src/de.rs:109-120 | reordering pairs with distinct keys keeps their keys distinct |
| Values.FromSortedPairs | src/de.rs:109-120 | pairs already in ascending key order build a map holding exactly those pairs |
| Grammar.U8SliceToU16 | src/de.rs:28-31 | two bytes give a value below 2^16 |
| Grammar.U16BitExpression | src/de.rs:28-31 | the source's masked-shift-or expression on 16 bits equals `s[0]*256 + s[1]` |
| Grammar.U8SliceToU32 | src/de.rs:34-39 | four bytes give a value below 2^32 |
| Grammar.U32BitExpression | src/de.rs:34-39 | the source's expression on 32 bits equals `s[0]*2^24 + s[1]*2^16 + s[2]*2^8 + s[3]` |
| Grammar.ReadU8 | src/de.rs:82-84 | succeeds exactly when a byte is left: that byte, with the cursor one on; otherwise `Truncated` |
| Grammar.ReadU16 | src/de.rs:86-89 | succeeds exactly when two bytes are left: `d[pos]*256 + d[pos+1]`, with the cursor two on; otherwise `Truncated` |
| Grammar.ReadU32 | src/de.rs:91-94 | succeeds exactly when four bytes are left: their big-endian value, with the cursor four on; otherwise `Truncated` |
| Grammar.DeserializeInt | src/de.rs:72-80 | an integer's follow-up stays between the cursor and the end of the input; `Grammar.IntWidths` states each width |
| Grammar.ReadAdditionalType | src/de.rs:64-70 | a length read moves the cursor at most one byte and is below 256; `Grammar.AdditionalTypeLengths` states which length |
| Grammar.AdditionalTypeLengths | src/de.rs:64-80 | a field of 0..23 is the length with the cursor unmoved; 24 is the next byte with the cursor one on, or `Truncated`; 25..31 is `UnsupportedAdditionalType`. For 0..24 the result is what `deserialize_int` reads, as an integer |
| Grammar.DeserializeBytes | src/de.rs:96-98 | succeeds exactly when `len` bytes are left: those bytes, with the cursor `len` on; otherwise `Truncated` |
| Grammar.ToString | src/de.rs:101 | `to_string` accepts the bytes as text exactly when they are well-formed UTF-8, and otherwise fails with `InvalidUtf8` |
| Grammar.DeserializeString | src/de.rs:100-102 | succeeds exactly when `len` bytes are left and they are well-formed UTF-8: that text, with the cursor `len` on; otherwise `Truncated` or `InvalidUtf8` |
| Grammar.DeserializeSimple | src/de.rs:122-127 | succeeds exactly on code 22, with `null`; any other code is `UnsupportedSimpleValue` with that code |
| Grammar.ParseValue | src/de.rs:47-62 | a decoded item consumes at least its header byte and never reads past the input |
| Grammar.ParseItems | src/de.rs:104-107 | `n` items decoded are exactly `n` values, within the input |
| Grammar.DeserializeArray | src/de.rs:104-107 | a decoded array holds exactly `len` items, within the input |
| Grammar.ParsePairs | src/de.rs:109-120 | `n` pairs decoded are exactly `n` entries, within the input |
| Grammar.DeserializeMap | src/de.rs:109-120 | a decoded map has strictly ascending keys, within the input |
| Grammar.PairsStep | src/de.rs:112-117 | a map body is one text key, its value, then the remaining pairs |
| Grammar.IntWidths | src/de.rs:72-94 | additional type 0..23 is the value and reads only the header; 24, 25 and 26 read exactly 1, 2 and 4 more bytes, big-endian, or fail as truncated; 27..31 is an error |
| Grammar.UnsupportedMajorTypes | src/de.rs:53-61 | major types 1 and 6 are errors, with no value produced |
| Grammar.ByteStrings | src/de.rs:96-98 | a byte string's length is the raw field `n`; the payload is the next `n` input bytes and the cursor moves `1 + n`, or it is truncated |
| Grammar.StringPayload | src/de.rs:100-102 | a text payload is the next `n` bytes, accepted only if well-formed UTF-8 |
| Grammar.TextStrings | src/de.rs:100-102 | text likewise takes the raw field as its length, and must be well-formed UTF-8 |
| Grammar.Arrays | src/de.rs:104-107 | an array of raw count `n` holds exactly the `n` items read one after another from just past the header, and fails exactly when they do |
| Grammar.ItemsSplit | src/de.rs:104-107 | decoding `n + m` items is decoding `n` and then `m` from where those ended: order of parsing is kept |
| Grammar.MapPairs | src/de.rs:109-120 | a map of raw count `n` is built from exactly the `n` pairs read from just past the header, and fails exactly when they do |
| Grammar.Maps | src/de.rs:109-120 | a decoded map has ascending keys and binds each key to its last pair's value |
| Grammar.MapKeyMustBeText | src/de.rs:113 | a map key position that decodes to anything but text is an error |
| Grammar.SimpleValues | src/de.rs:122-127 | major type 7 accepts code 22 only, as `null`, consuming only the header |
| Grammar.ParseIgnoresTrailing | src/de.rs:47-62 | bytes appended after the input do not change a decoded item |
| Grammar.ParseReadsOnlyItem | src/de.rs:47-62 | an item is decoded from its own bytes only: any input holding the same bytes from the cursor to the item's end decodes it the same, with the same end |
| Grammar.ItemsReadOnlyItems | src/de.rs:104-107 | the same for the items of an array |
| Grammar.PairsReadOnlyPairs | src/de.rs:109-120 | the same for the pairs of a map |
| Grammar.DecodeIgnoresTrailing | src/de.rs:16-21 | `from_bytes` decodes the first item and ignores what follows it |
| Grammar.DecodeReadsOnlyItem | src/de.rs:16-21 | `from_bytes` reads exactly the first item: the input cut just past it decodes the same |
| Grammar.Decode | src/de.rs:16-21 | a decoded input is not empty, and its value has well-formed UTF-8 text and ascending map keys at every depth |
| Grammar.DecodedWellFormed | src/de.rs:100-120 | every decoded value has well-formed UTF-8 text and ascending map keys at every depth |
| De.Deserializer.FromVecReader | src/de.rs:43-45 | the deserializer starts at position 0 of the given input |
| De.Deserializer.ReadByte | src/de.rs:49 | reading one byte returns it and moves the cursor one on, or fails at the end of the input |
| De.Deserializer.ReadNBytes | src/de.rs:87 | reading `n` bytes returns the next `n` and moves the cursor `n` on, or fails with fewer left |
| De.Deserializer.ReadAdditionalType | src/de.rs:64-70 | the method computes `Grammar.ReadAdditionalType`, which `Grammar.AdditionalTypeLengths` pins down, and leaves the cursor where it says |
| De.Deserializer.ReadU8 | src/de.rs:82-84 | the method computes `Grammar.ReadU8` from the cursor it started at |
| De.Deserializer.ReadU16 | src/de.rs:86-89 | the method computes `Grammar.ReadU16`, a big-endian 16-bit value |
| De.Deserializer.ReadU32 | src/de.rs:91-94 | the method computes `Grammar.ReadU32`, a big-endian 32-bit value |
| De.Deserializer.DeserializeInt | src/de.rs:72-80 | the method computes `Grammar.DeserializeInt` and moves the cursor to its end |
| De.Deserializer.DeserializeBytes | src/de.rs:96-98 | the method computes `Grammar.DeserializeBytes` and moves the cursor to its end |
| De.Deserializer.DeserializeString | src/de.rs:100-102 | the method computes `Grammar.DeserializeString` and moves the cursor to its end |
| De.Deserializer.DeserializeSimple | src/de.rs:122-127 | it succeeds exactly on code 22, with `null`, and otherwise reports the code |
| De.Deserializer.ParseValue | src/de.rs:47-62 | the recursive method computes `Grammar.ParseValue` and leaves the cursor just past the item |
| De.Deserializer.DeserializeArray | src/de.rs:104-107 | the loop collects exactly the items of `Grammar.ParseItems`, in order |
| De.Deserializer.DeserializeMap | src/de.rs:109-120 | the loop's successive inserts build exactly the map of `Grammar.DeserializeMap` |
| De.FromBytes | src/de.rs:16-21 | `from_bytes` returns `Grammar.Decode` of its input |
| Ser.EncodeUnsigned | src/ser.rs:45-51 | arguments 0..23 give the one byte `mt<<5 \| n`; 24..255 give the two bytes `[mt<<5 \| 24, n]`; anything above 255 is an error; the header is never longer than 2 bytes |
| Ser.EncodeString | src/ser.rs:65-68 | no contract of its own; `Ser.EncodeStringLayout` states its bytes |
| Ser.EncodeStringLayout | src/ser.rs:65-68 | text is a header of major type 3 carrying its length, in the header byte for 0..23 or as `[24, length]` for 24..255, then the text itself; a longer text is `Unrepresentable` |
| Ser.Encode | src/ser.rs:56-80 | no contract of its own; `Ser.EncodeMajorType` states its first byte, `RoundTrip.EncodeSucceeds` when it succeeds, `RoundTrip.Recover` that decoding inverts it |
| Ser.EncodeItems | src/ser.rs:70-72 | no contract of its own; `RoundTrip.ItemsSucceed` and `RoundTrip.RecoverItems` state it |
| Ser.EncodeEntries | src/ser.rs:74-76 | no contract of its own; `RoundTrip.EntriesSucceed` and `RoundTrip.RecoverEntries` state it |
| Ser.EncodeEntry | src/ser.rs:65-68 | no contract of its own; `RoundTrip.EntrySucceeds` and `RoundTrip.RecoverEntry` state it |
| Ser.EncodeMajorType | src/ser.rs:56-80 | the first byte written for any value is a header naming its variant's major type |
| Ser.AndThenOk | src/ser.rs:65-68 | two writes in a row succeed exactly when both do, with the two parts' bytes one after the other |
| Ser.AndThenAppends | src/ser.rs:65-68 | `Ser.AndThenOk` behind bytes already written: once the first part has gone through, the whole fails exactly when the second does, and appending the parts one after the other appends the whole |
| Ser.VecSerializer.FromVecWriter | src/ser.rs:41-43 | the serializer starts on the output vector it is given |
| Ser.VecSerializer.WriteBytes | src/ser.rs:58 | the writer appends the bytes to the output |
| Ser.VecSerializer.SerializeUnsigned | src/ser.rs:56-59 | appends exactly `encode_unsigned(n, mt)`'s bytes, and fails exactly when that does |
| Ser.VecSerializer.SerializeBytes | src/ser.rs:61-63 | appends its argument verbatim, with no header |
| Ser.VecSerializer.SerializeString | src/ser.rs:65-68 | appends a length header of major type 3, then the text's bytes |
| Ser.VecSerializer.SerializeSeq | src/ser.rs:70-72 | appends only a count header of major type 4 |
| Ser.VecSerializer.SerializeMap | src/ser.rs:74-76 | appends only a count header of major type 5 |
| Ser.VecSerializer.SerializeSimple | src/ser.rs:78-80 | appends only a header of major type 7 |
| Ser.VecSerializer.Serialize | src/ser.rs:30-36 | writing a value appends exactly `Encode(v)` when that succeeds, and never changes bytes already written |
| Ser.VecSerializer.SerializeItems | src/ser.rs:30-36 | after an array's header, the items are appended in order, each as `Encode` writes it |
| Ser.VecSerializer.SerializeEntries | src/ser.rs:30-36 | after a map's header, the pairs are appended in the map's (ascending) key order |
| Ser.VecSerializer.SerializeEntry | src/ser.rs:30-36 | a pair is its key written as text, then its value |
| Ser.ToBytes | src/ser.rs:27-38 | `to_bytes` starts from an empty output and returns exactly `Encode(v)` |
| RoundTrip.EncodeSucceeds | src/ser.rs:45-51 | encoding succeeds exactly when every integer, length and count is at most 255 |
| RoundTrip.ItemsSucceed | src/ser.rs:70-72 | the items encode exactly when each item is encodable |
| RoundTrip.EntriesSucceed | src/ser.rs:74-76 | the pairs encode exactly when each pair is encodable |
| RoundTrip.EntrySucceeds | src/ser.rs:65-68 | a pair encodes exactly when its key is at most 255 bytes and its value is encodable |
| RoundTrip.SmallIsEncodable | src/ser.rs:45-51 | values with lengths of at most 23 and integers of at most 255 are encodable |
| RoundTrip.Recover | src/de.rs:47-62 | decoding the bytes of a recoverable value at any position gives it back and stops just past those bytes |
| RoundTrip.RecoverItems | src/de.rs:104-107 | the encoded items of an array decode to those items |
| RoundTrip.RecoverEntries | src/de.rs:109-120 | the encoded pairs of a map decode to those pairs |
| RoundTrip.RecoverEntry | src/de.rs:113-114 | an encoded pair decodes to its key as text, then to its value, ending where the encoding ends |
| RoundTrip.DecodeEncode | src/de.rs:16-21 | a well-formed value with lengths of at most 23 and integers of at most 255 encodes, and decoding the encoding gives it back |
| RoundTrip.DecodeEncodePrefix | src/de.rs:16-21 | the same with any bytes following the encoding |
| RoundTrip.LongBytesComeBackShifted | src/de.rs:53-58 | 24 zero bytes are written `[0x58, 24, 0 x 24]` and come back as `[24, 0 x 23]`, not as themselves |
| RoundTrip.TwentyFourComesBack | src/de.rs:53-58 | 24 bytes of value 24 are not `Small`, yet come back unchanged, because the raw field and the length byte agree |
| RoundTrip.WideIntsNotWritten | src/de.rs:86-89 | `[25, 1, 0]` decodes to 256, which the encoder refuses to write |
| RoundTrip.SameBindingsSameBytes | src/ser.rs:83-90 | two well-formed maps with the same bindings are written as the same bytes |
| RoundTrip.InsertionOrderIrrelevant | src/ser.rs:83-90 | pairs with distinct keys inserted in any order give the same bytes |
| Vectors.TestMapEntries | src/ser.rs:85-87 | inserting "key1" and then "key2" into an empty map leaves them in that order |
| Vectors.SerializeMap | src/ser.rs:83-90 | the test map is written as the 25 bytes the test expects |
| Vectors.SerializeArray | src/ser.rs:92-96 | `Array([1, 2, 3])` is written `[131, 1, 2, 3]` |
| Vectors.SerializeString | src/ser.rs:98-102 | "test" is written `[0x64, 't', 'e', 's', 't']` |
| Vectors.SerializeU8 | src/ser.rs:104-114 | `Int(2)` is written `[2]` and `Int(42)` `[24, 42]` |
| Vectors.SerializeNull | src/ser.rs:116-120 | `Null` is written `[246]` |
| Vectors.DeserializeMap | src/de.rs:130-137 | the 25 map bytes decode to the test map |
| Vectors.DeserializeString | src/de.rs:139-143 | `[0x64, 't', 'e', 's', 't']` decodes to "test" |
| Vectors.DeserializeArray | src/de.rs:145-149 | `[0x83, 1, 2, 3]` decodes to `Array([1, 2, 3])` |
| Vectors.DeserializeBytes | src/de.rs:151-155 | `[0x43, 1, 2, 3]` decodes to `Bytes([1, 2, 3])` |
| Vectors.DeserializeU8 | src/de.rs:157-167 | `[1]` decodes to 1 and `[24, 42]` to 42 |
| Vectors.DeserializeU16 | src/de.rs:169-173 | `[25, 1, 0]` decodes to 256 |
| Vectors.DeserializeU32 | src/de.rs:175-179 | `[26, 1, 0, 0, 0]` decodes to 16777216 |
| Vectors.DeserializeNull | src/de.rs:181-185 | `[246]` decodes to `Null` |

## Left out

- The `io` module (`Reader`, `VecReader`, `Writer`, `VecWriter`) is not part of this model. The reader is a constant input sequence and a cursor field of `De.Deserializer`. The writer is the `output` sequence field of `Ser.VecSerializer`, which is only ever appended to. Reading past the end of the input is the error `Truncated`.
- The `bytes` module is not part of this model. `major_type`, `additional_type` and `concat` are modelled as arithmetic on bytes (`h / 32`, `h % 32`, `mt * 32 + ai`), with lemmas equating them to `h >> 5`, `h & 0x1f` and `mt << 5 | ai`. `to_string` is modelled as a check that the payload is well-formed UTF-8 (section 4 of RFC 3629), failing with `InvalidUtf8`. Text is kept as its bytes.
- The `Serialize` implementation for `Value` is not part of this model. `Ser.Encode` and `Ser.VecSerializer.Serialize` compose the `Serializer` operations as the wire format and the tests require. Null is code 22 under major type 7. An integer is its own argument under major type 0. Strings are a length header, then the payload. Arrays and maps are a count header, then the items, or the pairs in ascending key order.
- The `constants` module is not part of this model; `MAX_U8` is taken to be 255.
- `TestValue` and the `transmute` imports are unused by the code and are left out.
- The `Vec::with_capacity(128)` reservation in `to_bytes` only affects performance and is left out.
- Every `unreachable!()` and `unwrap()` is an `Err` result naming the condition: `UnsupportedMajorType`, `UnsupportedAdditionalType`, `UnsupportedSimpleValue`, `InvalidMapKey` and `Unrepresentable`. Recursion depth and stack exhaustion are not modelled.
- De.Deserializer.ParseValue: on an error the source panics, so the model states only that the cursor stays within the input. The same holds for the other reading methods, except `ReadByte` and `ReadNBytes`, which leave the cursor unmoved on an error.
- Ser.VecSerializer.Serialize: after a failed write the model states only that earlier output is unchanged, not which partial bytes were appended before the abort. The same holds for `SerializeItems`, `SerializeEntries` and `SerializeEntry`.
- RoundTrip.DecodeEncode: proved for lengths and counts of at most 23 and integers of at most 255. The decoder reads the raw additional-type field as the length, so longer values do not come back in general (`RoundTrip.LongBytesComeBackShifted`), although some do by coincidence (`RoundTrip.TwentyFourComesBack`). No exact characterisation of the values that come back is stated.
- Value::Int holds a `u32`, as in the source. The decoder produces integers of at most 2^32 - 1 and so cannot overflow it. The `as u32` casts of `read_u8` and `read_u16` are widening and are modelled as the identity.
