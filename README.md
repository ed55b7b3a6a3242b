# WarpX `ablastr::utils::serialization` byte codec

This project models the byte-packing codec of WarpX's `ablastr` library
(`Source/ablastr/utils/Serialization.H`) and proves properties of the model
in Dafny.

- `put_in` and `put_in_vec` append a value's encoding to a
  `std::vector<char>` in place.
- `get_out` and `get_out_vec` read a value at a `const_iterator` and move
  the iterator past what they read.

The wire layout:

| value | bytes |
|---|---|
| trivially copyable `T` | the `sizeof(T)` bytes of its object representation |
| `std::string` | the length as an `int`, then the characters |
| `std::vector<T>` | the count as an `int`, then each element's bytes |
| `std::vector<char>` | the count as an `int`, then the characters as one block (fast path) |
| `std::vector<std::string>` | the count as an `int`, then each string's encoding |

How the C++ is represented:

- **Bytes.** A `char` is a `Byte` (0..255, its bit pattern). The byte vector is a `seq<Byte>`.
- **`int`.** An `int` is 4 bytes: little-endian two's complement. `EncodeInt32` and `DecodeInt32` compute it byte by byte. `Codecs.Int32IsSigned` and `Codecs.Int32ReadIsSigned` prove them equal to the generic n-byte signed codec of `Bytes` at n = 4, and `Codecs.Int32IsTriviallyCopyable` derives the `int` round trip from the generic one.
- **Width 8.** The 8-byte codecs for `long long` and `std::uint64_t` are built directly on the generic codecs of `Bytes`. They are used by no operation of the serializer. They exist to show that the abstract `Codec` condition can also be met at width 8.
- **Other trivially copyable types.** Any other trivially copyable `T` is an abstract `Codec<T>` (size, encoder, decoder). The ghost predicate `TriviallyCopyable` asks that every image be exactly `size` bytes long and that decoding an image gives the value back. It stands in for the `static_assert`s at lines 42, 70, 103 and 141.
- **`static_cast<int>(size)`.** The casts at lines 35, 65 and 74 are `WrapInt32`: the size modulo 2^32, read as a signed `int`. A size of 2^31 or more therefore becomes a wrong or negative count, as in the C++.

The model has five modules:

- `Bytes`: little-endian and two's complement images of integers.
- `Codecs`: the fixed-width codecs and the `int` cast.
- `WireFormat`: the encodings and readings as functions on byte sequences, with the round-trip lemmas.
- `Serialization`: the imperative code. The writers are module-level methods that take the byte vector as a `vec: ByteVector` argument and extend its `data` field; the loop over elements carries its invariant. The readers are methods over the bytes and a cursor index, returning the value and the advanced cursor. `get_out_vec` fills an array in a counted loop. The readers have no `modifies` clause, so they cannot change the byte vector, only move the cursor (the `const_iterator` of lines 91 and 128).
- `Records`: several values written back to back and read back by successive reads on one cursor.

## Model

| member | source | states |
|---|---|---|
| `Bytes.LittleEndian` | Source/ablastr/utils/Serialization.H:45-46 | the image of a value below 256^n is n bytes long, low byte first |
| `Bytes.FromLittleEndian` | Source/ablastr/utils/Serialization.H:111 | the value an n-byte image stands for is below 256^n |
| `Bytes.FromLittleEndianOfLittleEndian` | Source/ablastr/utils/Serialization.H:107-111 | reading the n-byte little-endian image of u gives u back |
| `Bytes.LittleEndianOfFromLittleEndian` | Source/ablastr/utils/Serialization.H:107-111 | every byte sequence is the image of the value read from it, so the unsigned codec is a bijection |
| `Bytes.SignedRoundTrip` | Source/ablastr/utils/Serialization.H:45-46 | decoding the two's complement image of an in-range signed value gives the value back |
| `Codecs.EncodeInt32` | Source/ablastr/utils/Serialization.H:45-46 | the image of an `int` that `put_in<int>` copies out is 4 bytes, and its last byte has the top bit set exactly when the value is negative |
| `Codecs.DecodeInt32` | Source/ablastr/utils/Serialization.H:107-111 | the `int` that `get_out<int>` copies in from 4 bytes is negative exactly when the top bit of the fourth byte is set |
| `Codecs.Int32IsTriviallyCopyable` | Source/ablastr/utils/Serialization.H:42-46 | the `int` codec writes 4 bytes and reads every `int` back from them |
| `Codecs.Int32IsSigned` | Source/ablastr/utils/Serialization.H:45-46 | the `int` image is the generic 4-byte two's complement little-endian image |
| `Codecs.Int32ReadIsSigned` | Source/ablastr/utils/Serialization.H:107-111 | reading an `int` is the generic signed reading of its first 4 bytes |
| `Codecs.Int64IsTriviallyCopyable` | Source/ablastr/utils/Serialization.H:42-46 | the 8-byte signed codec writes 8 bytes and reads every value back; an instance of the abstract codec at width 8, which no serializer operation uses |
| `Codecs.UInt64IsTriviallyCopyable` | Source/ablastr/utils/Serialization.H:42-46 | the 8-byte unsigned codec writes 8 bytes and reads every value back; an instance of the abstract codec at width 8, which no serializer operation uses |
| `Codecs.CharIsTriviallyCopyable` | Source/ablastr/utils/Serialization.H:42-46 | a `char` is one byte and reads back as itself |
| `Codecs.WrapInt32` | Source/ablastr/utils/Serialization.H:35 | a non-negative cast result is never larger than the size |
| `Codecs.WrapInt32Congruent` | Source/ablastr/utils/Serialization.H:35 | the cast keeps the size modulo 2^32 |
| `Codecs.WrapInt32Exact` | Source/ablastr/utils/Serialization.H:74 | the cast leaves a size unchanged exactly when it is below 2^31 |
| `WireFormat.EncodeCount` | Source/ablastr/utils/Serialization.H:65 | a count or length is written as exactly sizeof(int) = 4 bytes |
| `WireFormat.EncodeString` | Source/ablastr/utils/Serialization.H:32-38 | a string's encoding is 4 bytes plus the cast length |
| `WireFormat.EncodeElems` | Source/ablastr/utils/Serialization.H:75-76 | the elements' images in order; n elements of a trivially copyable type take n * sizeof(T) bytes |
| `WireFormat.EncodeVec` | Source/ablastr/utils/Serialization.H:74-76 | the 4-byte cast count, then each element's image in order, 4 + n * sizeof(T) bytes in all |
| `WireFormat.EncodeCharVec` | Source/ablastr/utils/Serialization.H:63-66 | the 4-byte cast count, then the characters themselves, 4 + n bytes in all |
| `WireFormat.EncodeStrings` | Source/ablastr/utils/Serialization.H:75-76 | with `std::string` elements: each string's encoding in order, at least 4 bytes per string and, below 2^31, 4 bytes per string plus all the characters |
| `WireFormat.EncodeStringVec` | Source/ablastr/utils/Serialization.H:74-76 | `put_in_vec<std::string>`: the 4-byte cast count, then each string's encoding |
| `WireFormat.EncodeElemsSnoc` | Source/ablastr/utils/Serialization.H:75-76 | one more element appends exactly that element's image after the previous ones |
| `WireFormat.EncodeStringsSnoc` | Source/ablastr/utils/Serialization.H:75-76 | one more string appends exactly that string's encoding after the previous ones |
| `WireFormat.ReadScalar` | Source/ablastr/utils/Serialization.H:107-109 | reading a scalar advances the cursor by exactly sizeof(T) |
| `WireFormat.CountAt` | Source/ablastr/utils/Serialization.H:145 | the `int` that `get_out<int>` reads at the cursor (also lines 95 and 132), negative exactly when the top bit of its last byte is set |
| `WireFormat.ReadString` | Source/ablastr/utils/Serialization.H:95-97 | the string read is the `length` bytes after the 4-byte length, and the cursor ends right after them |
| `WireFormat.ReadElems` | Source/ablastr/utils/Serialization.H:146-148 | reading n elements yields exactly n values |
| `WireFormat.ReadElemsSnoc` | Source/ablastr/utils/Serialization.H:147-148 | the (i+1)-th element is read at offset i * sizeof(T), after the first i |
| `WireFormat.ReadVec` | Source/ablastr/utils/Serialization.H:145-149 | the vector read has `count` elements, and the cursor moves by 4 + count * sizeof(T) and stays within the bytes |
| `WireFormat.ConcatAt` | Source/ablastr/utils/Serialization.H:23-27 | in runs written back to back, the i-th run starts right after the first i |
| `WireFormat.ScalarRoundTrip` | Source/ablastr/utils/Serialization.H:107-113 | at the start of a scalar's image, `get_out` returns the value, and the cursor moves by sizeof(T) |
| `WireFormat.CountRoundTrip` | Source/ablastr/utils/Serialization.H:95 | a written count reads back as its cast, which equals the count itself below 2^31 |
| `WireFormat.StringRoundTrip` | Source/ablastr/utils/Serialization.H:93-99 | `get_out<std::string>` returns the characters `put_in<std::string>` wrote, ending right after them; below 2^31 that is the whole string |
| `WireFormat.ShortStringRoundTrip` | Source/ablastr/utils/Serialization.H:93-99 | a string shorter than 2^31 reads back whole, and the cursor moves by 4 + its length |
| `WireFormat.ElemsRoundTrip` | Source/ablastr/utils/Serialization.H:147-148 | elements written one after another are read back in order |
| `WireFormat.VecRoundTrip` | Source/ablastr/utils/Serialization.H:145-149 | `get_out_vec<T>` at the start of `put_in_vec<T>(v)` returns v, and the cursor ends right after the encoding |
| `WireFormat.CharElemsAreRaw` | Source/ablastr/utils/Serialization.H:66 | the per-character images of a char vector are its characters |
| `WireFormat.CharFastPathIsGeneric` | Source/ablastr/utils/Serialization.H:63-66 | the `char` fast path writes the same bytes as the generic per-element branch |
| `WireFormat.CharVecRoundTrip` | Source/ablastr/utils/Serialization.H:145-149 | the generic `get_out_vec<char>` reads back what the fast path wrote |
| `WireFormat.ShortFits` | Source/ablastr/utils/Serialization.H:35 | strings shorter than 2^31 get a non-negative cast length |
| `WireFormat.ReadStrings` | Source/ablastr/utils/Serialization.H:147-148 | a successful read of n strings yields n strings, and the cursor never moves backwards |
| `WireFormat.ReadStringsPrefix` | Source/ablastr/utils/Serialization.H:147-148 | when n strings can be read in a row, so can the first i |
| `WireFormat.ReadStringVec` | Source/ablastr/utils/Serialization.H:145-149 | the corrected reading of `get_out_vec<std::string>` (see Findings) succeeds exactly when the count is non-negative and that many strings can be read after it; it then returns `count` strings and does not move the cursor backwards |
| `WireFormat.StringsRoundTrip` | Source/ablastr/utils/Serialization.H:75-76 | strings written back to back by `put_in<std::string>` are read back in order, ending right after the last |
| `WireFormat.StringVecRoundTrip` | Source/ablastr/utils/Serialization.H:141-149 | the per-string reading returns what `put_in_vec<std::string>` wrote, ending right after it (corrected reading, see Findings) |
| `WireFormat.StringBranchMisreads` | Source/ablastr/utils/Serialization.H:130-137 | on the encoding of {"a"} the string branch reads [1] and stops at byte 5 of 9; the per-string reading returns {"a"} ending at 9 |
| `Serialization.PutIn` | Source/ablastr/utils/Serialization.H:44-46 | appends exactly the value's sizeof(T)-byte image and leaves the old bytes unchanged |
| `Serialization.PutInCount` | Source/ablastr/utils/Serialization.H:65 | appends the 4-byte image of the cast count |
| `Serialization.PutInString` | Source/ablastr/utils/Serialization.H:32-38 | appends the length, then the characters; below 2^31 the vector grows by 4 + size |
| `Serialization.PutInVec` | Source/ablastr/utils/Serialization.H:74-76 | appends the count, then each element's image in order |
| `Serialization.PutInCharVec` | Source/ablastr/utils/Serialization.H:63-66 | appends the count and the raw characters, which are the generic branch's bytes |
| `Serialization.PutInStringVec` | Source/ablastr/utils/Serialization.H:74-76 | with `std::string` elements: appends the count, then each string's encoding |
| `Serialization.GetOut` | Source/ablastr/utils/Serialization.H:107-113 | returns the value decoded from the next sizeof(T) bytes, with the cursor past them |
| `Serialization.GetOutString` | Source/ablastr/utils/Serialization.H:95-99 | returns the string read at the cursor, with the cursor past it |
| `Serialization.GetOutCount` | Source/ablastr/utils/Serialization.H:95 | returns the `int` at the cursor, with the cursor 4 bytes on |
| `Serialization.GetOutVec` | Source/ablastr/utils/Serialization.H:145-150 | returns the vector read at the cursor, with the cursor past it |
| `Serialization.GetOutElems` | Source/ablastr/utils/Serialization.H:146-148 | the counted loop returns the `length` elements at the cursor, with the cursor length * sizeof(T) on |
| `Serialization.GetOutVecStringBranch` | Source/ablastr/utils/Serialization.H:130-137 | as written, the string branch returns one length-prefixed block of bytes, with the cursor past it |
| `Serialization.GetOutStringVec` | Source/ablastr/utils/Serialization.H:145-149 | the generic loop with `std::string` elements returns the per-string reading (corrected reading, see Findings) |
| `Serialization.PutThenGetStrings` | Source/ablastr/utils/Serialization.H:74-76 | a vector of strings written by `put_in_vec` comes back equal from the per-string reading, ending at the end of the bytes |
| `Serialization.RecordLayout` | Source/ablastr/utils/Serialization.H:23-27 | a scalar, a string and a vector written back to back sit at offsets 0, sizeof(T) and sizeof(T) + 4 + the string's length |
| `Serialization.RecordReadsBack` | Source/ablastr/utils/Serialization.H:80-85 | each value of such a record reads back at its offset, and each read ends where the next value starts |
| `Serialization.PutThenGet` | Source/ablastr/utils/Serialization.H:80-85 | writing a scalar, a string and a vector, then reading with one cursor, returns all three, with the cursor at the end of the record |
| `Records.EncodeField` | Source/ablastr/utils/Serialization.H:29-48 | a field written by its writer takes sizeof(T) bytes for a scalar, and 4 bytes plus the contents for a string, a vector or a char vector |
| `Records.ReadField` | Source/ablastr/utils/Serialization.H:90-115 | the getter of a kind returns a field of that kind, with the cursor moved forward and still within the bytes |
| `Records.ScalarFieldRoundTrip` | Source/ablastr/utils/Serialization.H:109 | a scalar field is decoded by `get_out<T>` and the cursor lands after its image |
| `Records.TextFieldRoundTrip` | Source/ablastr/utils/Serialization.H:97 | a string field is decoded by `get_out<std::string>` and the cursor lands after it |
| `Records.VectorFieldRoundTrip` | Source/ablastr/utils/Serialization.H:145-149 | a vector field is decoded by `get_out_vec<T>` and the cursor lands after it |
| `Records.CharsFieldRoundTrip` | Source/ablastr/utils/Serialization.H:63-66 | a char vector field written by the fast path is decoded by `get_out_vec<char>` |
| `Records.FieldRoundTrip` | Source/ablastr/utils/Serialization.H:80-89 | any field is decoded by its getter wherever it sits, and the cursor lands right after it |
| `Records.FieldPlacement` | Source/ablastr/utils/Serialization.H:20-28 | the i-th field of a record sits at its offset, and the next field starts right after it |
| `Records.FieldReadBackAt` | Source/ablastr/utils/Serialization.H:80-89 | the i-th field is read back at its offset, and the read ends at the (i+1)-th offset |
| `Records.FieldsRoundTrip` | Source/ablastr/utils/Serialization.H:20-28 | fields written back to back are recovered in order by successive reads on one cursor, from the record's start to its end |

## Left out

- `Python/pywarpx/_libwarpx.py` is not part of this model: it is ctypes bindings to foreign libraries, with no logic of its own.
- `Source/Diagnostics/BackTransformedDiagnostic.H` and `BackTransformedDiagnostic_fwd.H` are not part of this model: only declarations are shown, and their behaviour rests on AMReX containers, floating point, MPI and file output.
- `Source/Utils/Interpolate_K.H` is not part of this model: it is floating-point interpolation over AMReX arrays.
- Byte order: `reinterpret_cast` and `memcpy` expose the platform's object representation. The model fixes it to little-endian two's complement for the integer codecs and keeps every other trivially copyable type abstract (`Codec`).
- Types: only `int`, `long long`, `std::uint64_t` and `char` have concrete codecs. Other trivially copyable types (`float`, `double`, structs) are covered only through the abstract `Codec` and its `TriviallyCopyable` condition.
- The iterator: the readers take the bytes as a value and return the new cursor, rather than updating a `const_iterator` passed by reference. Two iterators aliasing each other are not modelled.
- Records.FieldsRoundTrip: its fields share one element codec, so a record that mixes trivially copyable types (an `int` field next to a `long long` field, say) is not covered.
- Serialization.PutThenGet: writes and reads one scalar, one string and one vector over a single element type; records of other shapes or mixed types are not covered.
- Serialization.RecordReadsBack: states the read-back of that same one-type three-value record only.
- Serialization.GetOut: the source has no bounds check; reading past the end of the vector is undefined behaviour, so the model requires that the bytes are there.
- Serialization.GetOutString: a negative or out-of-range length is undefined behaviour in the source; the model requires a non-negative length whose characters are in range.
- Serialization.GetOutVec: for a negative count, `std::vector<T> res(length)` throws `std::length_error` after the conversion to `size_t`. The model requires a non-negative count and does not model the exception.
- Serialization.PutInString: a string of a size whose cast to `int` is negative gives an invalid range to `vec.insert`, which is undefined behaviour, so the model requires a non-negative cast length. Sizes of 2^32 and more whose cast is non-negative are modelled, and they write a truncated string.
- WireFormat.VecRoundTrip: the round trips of counts, vectors and strings need sizes below 2^31. Larger sizes do not survive the `int` cast, and no round trip holds for them (`WireFormat.StringRoundTrip` states what is read back instead).
- Serialization.GetOutStringVec: models how `get_out_vec<std::string>` evidently should read, not the branch at lines 130-137, which is modelled separately (see Findings).

## Findings

| source | as written | input that shows it | evidently intended | confidence | as-written member | corrected member |
|---|---|---|---|---|---|---|
| Source/ablastr/utils/Serialization.H:130-137 | the `std::string` branch of `get_out_vec` reads one `int` length and copies that many bytes into a `std::vector<char>`, which it returns as the declared `std::vector<std::string>`. It cannot compile once instantiated, and it does not match the count-then-strings layout that `put_in_vec<std::string>` writes (lines 74-76 with 32-38) | the 9 bytes `put_in_vec` writes for {"a"}: the branch takes the count 1 for a length, returns the one byte [1] (the string's length prefix) and stops at byte 5 | read the count, then that many strings by `get_out<std::string>`, as the generic branch does (its `static_assert` at line 141 admits `std::string`), returning {"a"} and stopping at byte 9 | not executed | `Serialization.GetOutVecStringBranch`, `WireFormat.StringBranchMisreads` | `Serialization.GetOutStringVec`, `WireFormat.StringVecRoundTrip` |
