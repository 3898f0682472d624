# RESP value model and encoder

A Dafny model of the RESP (Redis serialization protocol) codec's value model
and encoder. It covers `src/resp/mod.rs` and `src/resp/encode.rs`.

- **Values.** A `RespFrame` is one of twelve variants:
  - simple string, simple error, integer, bulk string;
  - the three null sentinels;
  - boolean and double;
  - array, map and set.

  The payload wrappers (`SimpleString`, `SimpleError`, `BulkString`,
  `RespArray`, `RespSet`, `RespMap`) are Dafny datatypes. Each has its `new`
  constructor and its `Deref` accessor.
- **Maps.** A `RespMap` wraps a `BTreeMap<String, RespFrame>`. Here it is the
  sequence of its entries in iteration order. Keys are strictly ascending in
  byte-lexicographic order, and `Insert` is the `BTreeMap::insert` reached
  through `DerefMut`.
- **Equality.** `FrameEq` is the derived `PartialEq`: same variant and equal
  payloads, with IEEE 754 equality for the `f64` of `Double`.
- **Encoder.** `Encode` is the `RespEncode` dispatch on `RespFrame`. It has one
  framing rule per variant and recurses through arrays, sets and maps.
  - The pure impls are functions.
  - The impls that fill a buffer with `extend_from_slice` are methods, proved
    to build exactly what the specifying function describes. These are the
    array, set and map loops and the three appends of a bulk string.
- **Reader.** To say what the bytes mean, `Reader` is a reference reading of
  the RESP2 grammar:
  - a tag byte;
  - a line ending in CR LF;
  - a length-prefixed bulk payload;
  - count-prefixed aggregates.

  It is not the repository's decoder. It is used to prove that an encoded
  frame is self-delimiting and reads back as itself whenever `Reader.Readable`
  holds of it. That condition rules out three cases:
  - a `Map` anywhere inside: its header counts pairs, but its body holds twice
    that many frames (`MapReadsAsShortArray`);
  - a `Double` anywhere inside: its text is a parameter, so nothing is proved
    about it;
  - a simple string or simple error whose text contains CR LF: the text is
    written unchecked and reads back cut short (`SimpleStringWithCrlfIsCut`).

Strings are modelled as their UTF-8 bytes (`seq<byte>`). So `String`
ordering is byte-lexicographic, as `BTreeMap<String, _>` orders them. The
`f64` of `Double` is modelled as its 64-bit pattern (`bv64`). Rust's float
formatting is a parameter of the encoder (`DoubleFormat`).

Files:

- `wire.dfy`: bytes, the ASCII framing constants, decimal numerals and their
  inverse.
- `order.dfy`: the byte-lexicographic strict order on keys.
- `resp.dfy`: the value model and the sorted map.
- `equality.dfy`: the derived equality.
- `encode.dfy`: the encoder.
- `reader.dfy`: the reference reader and the round-trip lemmas.

## Model

| member | source | states |
|---|---|---|
| Wire.DecimalIsNumeral | src/resp/encode.rs:29-34 | Rust's `{}` of a non-negative integer is a non-empty digit string that denotes it, with a leading zero only for 0 |
| Wire.DecimalOfDigitsValue | src/resp/encode.rs:29-34 | every digit string without a superfluous leading zero is the `{}` numeral of its value, so numerals and values correspond one to one |
| Wire.DecimalInjective | src/resp/encode.rs:29-34 | equal numerals denote equal numbers, for all naturals |
| ByteOrder.LessIrreflexive | src/resp/mod.rs:50 | no key sorts before itself in the `BTreeMap<String, _>` order |
| ByteOrder.LessTransitive | src/resp/mod.rs:50 | the key order is transitive |
| ByteOrder.LessTotal | src/resp/mod.rs:50 | any two distinct keys are ordered one way or the other |
| ByteOrder.LessAsymmetric | src/resp/mod.rs:50 | two keys are never each below the other |
| Resp.SimpleString.New | src/resp/mod.rs:125-129 | `SimpleString::new` stores its text unchanged, and `Deref` returns exactly that text |
| Resp.SimpleError.New | src/resp/mod.rs:131-135 | `SimpleError::new` stores its text unchanged, and `Deref` returns it |
| Resp.BulkString.New | src/resp/mod.rs:137-141 | `BulkString::new` stores the bytes unchanged; `Deref` returns them and `len()` is their count |
| Resp.RespArray.New | src/resp/mod.rs:143-147 | `RespArray::new` keeps the frames in order; `Deref` returns them and `len()` is their number |
| Resp.RespSet.New | src/resp/mod.rs:155-159 | `RespSet::new` keeps the frames in order, duplicates included; `len()` is their number |
| Resp.RespMap.New | src/resp/mod.rs:149-153 | `RespMap::new` is the empty, well-formed map: length 0, and every lookup misses |
| Resp.RespMap.Default | src/resp/mod.rs:111-115 | `RespMap::default` is the same map as `RespMap::new` |
| Resp.RespMap.Get | src/resp/mod.rs:97-103 | definition (`BTreeMap::get` through `Deref`); its properties are stated by `Resp.RespMap.New`, `Resp.RespMap.Insert`, `Resp.GetAtIndex` and `Resp.SameContentsSameMap` |
| Resp.RespMap.Keys | src/resp/mod.rs:97-103 | the keys in iteration order are exactly `len()` many, all present, strictly ascending and pairwise distinct |
| Resp.RespMap.Insert | src/resp/mod.rs:105-109 | insert through `DerefMut` keeps the map sorted. The key then maps to the new value and every other key is unchanged. An existing key keeps its slot and the size; a new key is spliced in at one position and grows the size by one |
| Resp.InsertEntriesShape | src/resp/mod.rs:105-109 | on the entries, insertion overwrites the entry at the key's position, or splices a new entry in there |
| Resp.InsertEntriesLookup | src/resp/mod.rs:105-109 | after insertion the key finds the new value and every other key finds what it found before |
| Resp.InsertEntriesSorted | src/resp/mod.rs:105-109 | insertion into strictly ascending entries leaves them strictly ascending |
| Resp.SortedExtensional | src/resp/mod.rs:50 | two strictly ascending entry lists that agree on every lookup are identical |
| Resp.SameContentsSameMap | src/resp/mod.rs:50 | two well-formed maps with the same contents are equal, whatever insertions built them |
| Resp.InsertCommutes | src/resp/mod.rs:105-109 | inserting two distinct keys gives the same map in either order |
| Resp.InsertLastWriteWins | src/resp/mod.rs:105-109 | inserting a key twice gives the map that the last insertion alone gives |
| Resp.LenIsKeyCount | src/resp/mod.rs:50 | a map's length is the number of distinct keys it holds, so no key is stored twice |
| Resp.InsertOrderExample | src/resp/mod.rs:97-103 | inserting `"b"` and then `"a"` iterates as `"a"`, `"b"` |
| Resp.GetAtIndex | src/resp/mod.rs:97-103 | in iteration order, the i-th key looks up the i-th value |
| FrameEquality.FrameEq | src/resp/mod.rs:20-35 | definition (the derived `PartialEq`: same variant, equal payloads, IEEE equality on `f64`); its properties are stated by `FrameEquality.FrameEqIsEquality`, `FrameEquality.FrameEqSymmetric` and `FrameEquality.DoubleEqualityIsIeee` |
| FrameEquality.FrameEqIsEquality | src/resp/mod.rs:20-35 | with no `Double` inside, derived equality holds exactly when the two frames are the same value: same variant and recursively equal payloads |
| FrameEquality.FramesEqIsEquality | src/resp/mod.rs:46-47 | `Vec<RespFrame>` equality without doubles is equal length and equal frames in order, both directions |
| FrameEquality.EntriesEqIsEquality | src/resp/mod.rs:49-50 | `BTreeMap` equality without doubles is identical key/value pairs in iteration order, both directions |
| FrameEquality.FrameEqSymmetric | src/resp/mod.rs:20-35 | derived frame equality is symmetric |
| FrameEquality.DoubleEqualityIsIeee | src/resp/mod.rs:32 | a NaN `Double` is not equal to itself, and +0.0 equals -0.0 |
| Encoder.Encode | src/resp/encode.rs:8-27 | definition (the dispatch on the twelve variants); its properties are stated by `Encoder.FramingShape`, `Reader.ReadEncode` and `Reader.EncodeInjective` |
| Encoder.EncodeInteger | src/resp/encode.rs:29-34 | definition; its properties are stated by `Encoder.IntegerLayout`, `Encoder.IntegerAsSignAndDigits`, `Encoder.IntegerExamples` and `Reader.ReadInteger` |
| Encoder.EncodeSimpleString | src/resp/encode.rs:36-40 | definition; its properties are stated by `Encoder.SimpleTextLayout`, `Reader.ReadSimpleString` and `Reader.SimpleStringWithCrlfIsCut` |
| Encoder.EncodeSimpleError | src/resp/encode.rs:42-46 | definition; its properties are stated by `Encoder.SimpleTextLayout` and `Reader.ReadSimpleError` |
| Encoder.BulkStringBytes | src/resp/encode.rs:48-56 | specifying function of `Encoder.EncodeBulkString`; its properties are stated by `Encoder.BulkStringLayout` and `Reader.ReadBulkString` |
| Encoder.ArrayBytes | src/resp/encode.rs:66-75 | specifying function of `Encoder.EncodeArray`; its properties are stated by `Encoder.FramingShape` and `Reader.ReadAggregate` |
| Encoder.SetBytes | src/resp/encode.rs:131-140 | specifying function of `Encoder.EncodeSet`; its properties are stated by `Encoder.FramingShape` and `Reader.ReadAggregate` |
| Encoder.MapBytes | src/resp/encode.rs:118-128 | specifying function of `Encoder.EncodeMap`; its properties are stated by `Encoder.MapFraming`, `Encoder.MapIsShortArrayThenLeftover` and `Reader.MapReadsAsShortArray` |
| Encoder.EncodeBulkString | src/resp/encode.rs:48-56 | the three appends build the length header, the bytes verbatim and CRLF |
| Encoder.EncodeNullBulkString | src/resp/encode.rs:59-63 | the null bulk string is the five bytes `$-1` CR LF |
| Encoder.EncodeNullArray | src/resp/encode.rs:78-82 | the null array is the five bytes `*-1` CR LF |
| Encoder.EncodeNull | src/resp/encode.rs:85-89 | the null is the three bytes `_` CR LF |
| Encoder.EncodeBool | src/resp/encode.rs:92-100 | true is `#t` CR LF and false is `#f` CR LF |
| Encoder.EncodeDouble | src/resp/encode.rs:103-115 | a double is its formatted text followed by CRLF |
| Encoder.EncodeArray | src/resp/encode.rs:66-75 | the loop builds `*`, the element count, CRLF, then each element's encoding in order |
| Encoder.EncodeSet | src/resp/encode.rs:131-140 | the loop builds `~`, the element count, CRLF, then each element's encoding in order |
| Encoder.EncodeMap | src/resp/encode.rs:118-128 | the loop builds `*`, the number of pairs, CRLF, then for every entry in ascending key order its key as a simple string and then its value |
| Encoder.EncodeAllAppend | src/resp/encode.rs:70-72 | encoding a sequence of frames turns concatenation of frames into concatenation of bytes |
| Encoder.FramingShape | src/resp/encode.rs:8-27 | every frame's encoding ends in CRLF. Every frame but a `Double` is at least three bytes and starts with its variant's tag; a `Map` shares `*` with `Array` |
| Encoder.IntegerLayout | src/resp/encode.rs:29-34 | an integer is `:`, exactly one sign byte (`+` for zero and positives, `-` for negatives), the digits of its magnitude, then CRLF |
| Encoder.IntegerAsSignAndDigits | src/resp/encode.rs:29-34 | the explicit `+` and the `-` that Rust prints never occur together |
| Encoder.SimpleTextLayout | src/resp/encode.rs:36-46 | simple strings and errors carry their text verbatim between the tag and CRLF, with no check of its bytes |
| Encoder.BulkStringLayout | src/resp/encode.rs:48-56 | a bulk string's length is its payload length plus the digits of that length plus 5. Its bytes sit verbatim right after the header, whose digits denote the payload length |
| Encoder.EntriesAsSubFrames | src/resp/encode.rs:122-125 | a map's body consists of two sub-frames per entry, the key as a simple string and then the value, in entry order |
| Encoder.MapFraming | src/resp/encode.rs:118-128 | a map's frame is a header counting pairs, then twice that many sub-frames: the keys in ascending order, each followed by its value |
| Encoder.MapIsShortArrayThenLeftover | src/resp/encode.rs:118-128 | a map's bytes are an `Array` frame of only the first `len()` sub-frames, followed by the encodings of the rest |
| Encoder.IntegerExamples | src/resp/encode.rs:29-34 | 5 gives `:+5` CR LF, -5 gives `:-5` CR LF, and 0 gives `:+0` CR LF |
| Encoder.NullsAreNotEmpty | src/resp/encode.rs:59-75 | the empty bulk string is `$0` CR LF CR LF and the empty array `*0` CR LF; both differ from the null sentinels |
| Reader.ReadEncode | src/resp/encode.rs:8-27 | reading an encoded frame gives back exactly that frame and exactly the bytes of its encoding, whatever follows. This holds for frames without `Double` or `Map` and without CR LF in simple text |
| Reader.ReadSimpleString | src/resp/encode.rs:36-40 | a simple string whose text has no CR LF reads back as itself |
| Reader.ReadSimpleError | src/resp/encode.rs:42-46 | a simple error whose text has no CR LF reads back as itself |
| Reader.ReadInteger | src/resp/encode.rs:29-34 | every `i64`, with its explicit `+`, reads back as itself |
| Reader.ReadBulkString | src/resp/encode.rs:48-56 | every bulk string reads back as itself, whatever bytes it holds |
| Reader.ReadNullBulkString | src/resp/encode.rs:59-63 | the null bulk string reads back as itself, not as a bulk string |
| Reader.ReadNullArray | src/resp/encode.rs:78-82 | the null array reads back as itself, not as an array |
| Reader.ReadNull | src/resp/encode.rs:85-89 | the null reads back as itself |
| Reader.ReadBoolean | src/resp/encode.rs:92-100 | both booleans read back as themselves |
| Reader.ReadAggregate | src/resp/encode.rs:66-75 | an array or set of readable frames reads back as itself |
| Reader.ReadManyEncodeAll | src/resp/encode.rs:70-72 | the concatenated encodings of readable frames read back as those frames, in order, using all of their bytes |
| Reader.MapReadsAsShortArray | src/resp/encode.rs:118-128 | read by the RESP grammar, a map's bytes give an `Array` of only its first `len()` sub-frames. The encodings of the other sub-frames are left over |
| Reader.MapDoesNotReadBack | src/resp/encode.rs:121-125 | a non-empty map does not read back as itself, and its frame is not consumed in full |
| Reader.EncodeInjective | src/resp/encode.rs:8-27 | distinct readable frames have distinct encodings |
| Reader.SimpleStringWithCrlfIsCut | src/resp/encode.rs:36-40 | the simple string `a` CR LF `b` is written unchecked and reads back cut short as `a` |

## Left out

- Encoder.EncodeDouble: the bytes before the CRLF are a parameter (`DoubleFormat`). Float comparison (`abs() > 1e+8`) and Rust's `{}`/`{:+e}` float printing are not modelled, so nothing is proved about a double's text. That includes the stray `$` in front of `,` on the large-magnitude path (src/resp/encode.rs:107). It also includes two quirks of the small-magnitude path (src/resp/encode.rs:109-110), read from the source rather than observed. `-0.0 < 0.0` is false, so `-0.0` gets the `+` and Rust then prints `-0`, giving `,+-0`. A NaN likewise gets the `+` and is written `,+NaN`.
- Reader.ReadEncode: frames holding a `Double` are excluded because their text is a parameter. Maps are excluded because their header counts pairs while their body holds twice as many frames; `MapReadsAsShortArray` states what they read as instead.
- The repository's decoder is not part of this model (src/resp/mod.rs:8, 16-18). `Reader` is a reference reading of the grammar, not that decoder.
- The `unimplemented!()` arm (src/resp/encode.rs:24) is unreachable: `RespFrame` has exactly the twelve variants, and `BigNumber` is commented out.
- Capacity hints (`BUF_CAP`, `Vec::with_capacity`) affect performance only.
- The `enum_dispatch` machinery is modelled as a plain `match`.
- UTF-8 validity of `String` is not modelled; text is a byte sequence.
- The old value that `BTreeMap::insert` returns is not modelled; `Insert` returns the new map.
- `BTreeMap` and `Vec` methods other than `insert`, `get`, `len` and iteration are not modelled.
- `Debug` is not modelled.
- Nested maps: a `Map` variant of `RespFrame` may hold any `RespMap`, including entry lists that are not strictly ascending and that no `BTreeMap` can produce. Encoding is defined on those too. The map lemmas (`Resp.RespMap.Insert`, `Encoder.MapFraming`, and the rest) require `Valid()` of the map they are about; nested maps are not required to be `Valid()`.
- In-place mutation through `DerefMut` is modelled on values: `Insert` returns the updated map rather than changing one in place.
- An `i64` is the mathematical integer range of that type. Rust's `{}` prints `i64::MIN` with its own `-`, which the model reproduces by formatting the magnitude, so no overflow arises.
